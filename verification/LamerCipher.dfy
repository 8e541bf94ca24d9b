/** The CRC-keyed cipher that hides stored passwords (src/lamercipher.c:44-134). Strings are their bytes,
    without the NUL that ends them. */
module LamerCipher {
  const GENERATOR: bv32 := 0xae06_0ed2

  /** The bit of weight 2^31, which a divisor must have and a remainder must not. */
  const FLAG: bv32 := 0x8000_0000

  predicate IsRemainder(key: bv32) {
    key & FLAG == 0
  }

  predicate IsDivisor(divisor: bv32) {
    divisor & FLAG != 0
  }

  // ---------------------------------------------------------------- the bits of a value

  /** The part of a value above its low `count` bits. */
  function Above(value: bv32, count: nat): bv32 {
    if count == 0 then value else Above(value, count - 1) >> 1
  }

  predicate BitAt(value: bv32, i: nat) {
    Above(value, i) & 1 != 0
  }

  /** The highest of the low `count` bits. */
  function Mask(count: nat): bv32
    requires count <= 32
  {
    Above(FLAG, 32 - count)
  }

  lemma {:induction false} AboveAbove(value: bv32, i: nat, j: nat)
    ensures Above(Above(value, i), j) == Above(value, i + j)
  {
    if j > 0 {
      AboveAbove(value, i, j - 1);
    }
  }

  lemma {:induction false} AboveZero(count: nat)
    ensures Above(0, count) == 0
  {
    if count > 0 {
      AboveZero(count - 1);
    }
  }

  lemma AboveOne(value: bv32, count: nat)
    ensures Above(value, 0) == value && Above(value, count + 1) == Above(value, count) >> 1
  {
  }

  /** The bits that are clear once the high `count` bits and the next one are. */
  function High(count: nat): bv32 {
    if count == 0 then FLAG else (High(count - 1) >> 1) | FLAG
  }

  lemma {:induction false} AboveIsLow(value: bv32, count: nat)
    requires IsRemainder(value)
    ensures Above(value, count) & High(count) == 0
  {
    if count > 0 {
      AboveIsLow(value, count - 1);
    }
  }

  /** All 31 bits of a remainder are low. */
  lemma NothingAbove(value: bv32)
    requires IsRemainder(value)
    ensures Above(value, 31) == 0
  {
    AboveIsLow(value, 31);
    assert High(4) == 0xf800_0000;
    assert High(8) == 0xff80_0000;
    assert High(12) == 0xfff8_0000;
    assert High(16) == 0xffff_8000;
    assert High(20) == 0xffff_f800;
    assert High(24) == 0xffff_ff80;
    assert High(28) == 0xffff_fff8;
    assert High(31) == 0xffff_ffff;
  }

  lemma MaskLast()
    ensures Mask(0) == 0 && Mask(1) == 1 && Mask(8) == 0x80 && Mask(31) == FLAG >> 1
  {
    assert Mask(28) == 0x0800_0000;
    assert Mask(24) == 0x0080_0000;
    assert Mask(20) == 0x0008_0000;
    assert Mask(16) == 0x8000;
    assert Mask(12) == 0x0800;
    assert Mask(4) == 0x08;
  }

  lemma MaskHalves(count: nat)
    requires 0 < count <= 32
    ensures Mask(count - 1) == Mask(count) >> 1
  {
  }

  lemma {:induction false} MaskIsOneBit(count: nat)
    requires count <= 32
    ensures Mask(count) & (Mask(count) - 1) == 0
    decreases 32 - count
  {
    if count < 32 {
      MaskIsOneBit(count + 1);
      HalfOfOneBit(Mask(count + 1));
    }
  }

  lemma HalfOfOneBit(mask: bv32)
    requires mask & (mask - 1) == 0
    ensures (mask >> 1) & ((mask >> 1) - 1) == 0
  {
  }

  lemma MaskIsSet(count: nat)
    requires 0 < count <= 32
    ensures Mask(count) != 0
  {
    MaskLast();
    AboveAbove(FLAG, 32 - count, count - 1);
    AboveZero(count - 1);
  }

  lemma MaskIsEven(count: nat)
    requires 1 < count <= 32
    ensures Mask(count) & 1 == 0
  {
    MaskIsOneBit(count);
    MaskIsSet(count - 1);
    AboveOne(FLAG, 32 - count);
    hide Above;
    EvenBit(Mask(count));
  }

  lemma EvenBit(mask: bv32)
    requires mask & (mask - 1) == 0 && mask >> 1 != 0
    ensures mask & 1 == 0
  {
  }

  predicate Meets(value: bv32, mask: bv32) {
    value & mask != 0
  }

  lemma HalfMeets(value: bv32, mask: bv32)
    requires mask & 1 == 0
    ensures Meets(value, mask) <==> Meets(value >> 1, mask >> 1)
  {
  }

  lemma MeetsLast(value: bv32)
    ensures Meets(value, 1) <==> BitAt(value, 0)
  {
    AboveOne(value, 0);
  }

  /** An even mask meets a value where its half meets the value's half. */
  lemma MaskHalfMeets(value: bv32, count: nat)
    requires 1 < count <= 32
    ensures Meets(value, Mask(count)) <==> Meets(Above(value, 1), Mask(count - 1))
  {
    hide Above, Mask, Meets;
    MaskIsEven(count);
    MaskHalves(count);
    AboveOne(value, 0);
    HalfMeets(value, Mask(count));
  }

  lemma BitAbove(value: bv32, count: nat)
    requires 1 < count
    ensures BitAt(Above(value, 1), count - 2) <==> BitAt(value, count - 1)
  {
    AboveAbove(value, 1, count - 2);
  }

  /** Running a mask down a value visits its bits. */
  lemma {:induction false} MaskMeetsBit(value: bv32, count: nat)
    requires 0 < count <= 32
    ensures Meets(value, Mask(count)) <==> BitAt(value, count - 1)
    decreases count
  {
    hide *;
    if count == 1 {
      MaskLast();
      MeetsLast(value);
    } else {
      MaskHalfMeets(value, count);
      MaskMeetsBit(Above(value, 1), count - 1);
      BitAbove(value, count);
    }
  }

  // ---------------------------------------------------------------- the checksum

  /** Addition and subtraction of polynomials over one bit. */
  function Plus(x: bv32, y: bv32): bv32 {
    x ^ y
  }

  function Shifted(key: bv32, bit: bool): bv32 {
    if bit then (key << 1) | 1 else key << 1
  }

  /** Dividing one bit further. */
  function Divide(divisor: bv32, key: bv32, bit: bool): bv32 {
    var next := Shifted(key, bit);
    if IsRemainder(next) then next else Plus(next, divisor)
  }

  /** Dividing by the low `count` bits of `value`, the highest of them first. */
  function DivideBits(divisor: bv32, key: bv32, value: bv32, count: nat): bv32
    decreases count
  {
    if count == 0 then key
    else DivideBits(divisor, Divide(divisor, key, BitAt(value, count - 1)), value, count - 1)
  }

  function DivideBytes(divisor: bv32, key: bv32, data: seq<bv8>): bv32
    decreases |data|
  {
    if data == [] then key
    else DivideBytes(divisor, DivideBits(divisor, key, data[0] as bv32, 8), data[1..])
  }

  function Crc(data: seq<bv8>, divisor: bv32, remainder: bv32): bv32 {
    DivideBits(divisor, DivideBytes(divisor, 0, data), remainder, 31)
  }

  lemma DivideRemains(divisor: bv32, key: bv32, bit: bool)
    requires IsDivisor(divisor)
    ensures IsRemainder(Divide(divisor, key, bit))
  {
  }

  lemma {:induction false} DivideBitsRemains(divisor: bv32, key: bv32, value: bv32, count: nat)
    requires IsDivisor(divisor) && IsRemainder(key)
    ensures IsRemainder(DivideBits(divisor, key, value, count))
    decreases count
  {
    hide IsDivisor, IsRemainder, Divide, BitAt;
    if count != 0 {
      DivideRemains(divisor, key, BitAt(value, count - 1));
      DivideBitsRemains(divisor, Divide(divisor, key, BitAt(value, count - 1)), value, count - 1);
    }
  }

  lemma {:induction false} DivideBytesRemains(divisor: bv32, key: bv32, data: seq<bv8>)
    requires IsDivisor(divisor) && IsRemainder(key)
    ensures IsRemainder(DivideBytes(divisor, key, data))
    decreases |data|
  {
    hide IsDivisor, IsRemainder, DivideBits;
    if data != [] {
      DivideBitsRemains(divisor, key, data[0] as bv32, 8);
      DivideBytesRemains(divisor, DivideBits(divisor, key, data[0] as bv32, 8), data[1..]);
    }
  }

  /** A checksum has 31 bits. */
  lemma CrcRemains(data: seq<bv8>, divisor: bv32, remainder: bv32)
    requires IsDivisor(divisor)
    ensures IsRemainder(Crc(data, divisor, remainder))
  {
    DivideBytesRemains(divisor, 0, data);
    DivideBitsRemains(divisor, DivideBytes(divisor, 0, data), remainder, 31);
  }

  lemma ShiftXor(key: bv32, high: bv32)
    ensures (key ^ high) << 1 == (key << 1) ^ (high << 1)
    ensures ((key ^ high) << 1) | 1 == (key << 1) ^ ((high << 1) | 1)
  {
  }

  lemma ShiftSum(key: bv32, high: bv32, bit: bool)
    ensures Shifted(Plus(key, high), bit) == Plus(Shifted(key, false), Shifted(high, bit))
  {
    ShiftXor(key, high);
    if bit {
      calc {
        Shifted(Plus(key, high), bit);
        ((key ^ high) << 1) | 1;
        (key << 1) ^ ((high << 1) | 1);
        Plus(Shifted(key, false), Shifted(high, bit));
      }
    }
  }

  lemma FlagSum(x: bv32, y: bv32)
    requires IsRemainder(y)
    ensures IsRemainder(Plus(x, y)) <==> IsRemainder(x)
  {
  }

  lemma PlusReorders(x: bv32, y: bv32, z: bv32)
    ensures Plus(Plus(x, y), z) == Plus(Plus(x, z), y)
  {
    PlusMoves(x, y, z);
    PlusMoves(x, z, y);
    hide Plus;
    PlusSwaps(y, z);
  }

  lemma PlusMoves(x: bv32, y: bv32, z: bv32)
    ensures Plus(Plus(x, y), z) == Plus(x, Plus(y, z))
  {
  }

  lemma PlusSwaps(x: bv32, y: bv32)
    ensures Plus(x, y) == Plus(y, x)
  {
  }

  lemma DivideSum(divisor: bv32, key: bv32, high: bv32, bit: bool)
    requires IsRemainder(Shifted(high, bit))
    ensures Divide(divisor, Plus(key, high), bit) == Plus(Divide(divisor, key, false), Shifted(high, bit))
  {
    hide Plus, Shifted, IsRemainder;
    ShiftSum(key, high, bit);
    FlagSum(Shifted(key, false), Shifted(high, bit));
    PlusReorders(Shifted(key, false), Shifted(high, bit), divisor);
  }

  lemma ShiftBack(x: bv32)
    ensures x == if x & 1 != 0 then ((x >> 1) << 1) | 1 else (x >> 1) << 1
  {
  }

  lemma OneMoreAbove(value: bv32, count: nat)
    requires 0 < count
    ensures Above(value, count - 1) == Shifted(Above(value, count), BitAt(value, count - 1))
  {
    ShiftBack(Above(value, count - 1));
  }

  lemma {:induction false} AboveRemains(value: bv32, count: nat)
    requires IsRemainder(value)
    ensures IsRemainder(Above(value, count))
  {
    if count > 0 {
      AboveRemains(value, count - 1);
    }
  }

  /** Bits fed after the data do nothing but add themselves to the remainder of as many zeros. */
  lemma {:induction false} DivideBitsSum(divisor: bv32, key: bv32, value: bv32, count: nat)
    requires IsRemainder(value)
    ensures DivideBits(divisor, Plus(key, Above(value, count)), value, count) == Plus(DivideBits(divisor, key, 0, count), value)
    decreases count
  {
    if count > 0 {
      OneMoreAbove(value, count);
      AboveRemains(value, count - 1);
      AboveZero(count - 1);
      assert !BitAt(0, count - 1);
      hide Plus, Divide, IsRemainder, BitAt, Shifted;
      DivideSum(divisor, key, Above(value, count), BitAt(value, count - 1));
      DivideBitsSum(divisor, Divide(divisor, key, false), value, count - 1);
    }
  }

  /** The checksum is linear in the remainder. */
  lemma CrcIsLinear(data: seq<bv8>, divisor: bv32, remainder: bv32)
    requires IsRemainder(remainder)
    ensures Crc(data, divisor, remainder) == Crc(data, divisor, 0) ^ remainder
  {
    var key := DivideBytes(divisor, 0, data);
    NothingAbove(remainder);
    assert key ^ 0 == key;
    assert Plus(key, Above(remainder, 31)) == key;
    hide DivideBits, DivideBytes, IsRemainder, Above;
    DivideBitsSum(divisor, key, remainder, 31);
  }

  /** A string followed by its own checksum has checksum 0, and no other remainder gives that. */
  lemma CrcChecksItself(data: seq<bv8>, divisor: bv32, remainder: bv32)
    requires IsDivisor(divisor) && IsRemainder(remainder)
    ensures Crc(data, divisor, remainder) == 0 <==> remainder == Crc(data, divisor, 0)
  {
    hide Crc;
    CrcIsLinear(data, divisor, remainder);
  }

  // The checksum is what dividing by the divisor leaves: less than that is left as it is, the divisor leaves
  // nothing, and sums leave sums.

  lemma ShiftAdds(x: bv32, y: bv32, a: bool, b: bool)
    ensures Shifted(Plus(x, y), a != b) == Plus(Shifted(x, a), Shifted(y, b))
  {
    if a && b {
      BitsCancel(x << 1, y << 1);
      ShiftXor(x, y);
    } else if a {
      ShiftSum(y, x, true);
      hide Shifted, Plus;
      PlusSwaps(x, y);
      PlusSwaps(Shifted(y, false), Shifted(x, true));
    } else {
      ShiftSum(x, y, b);
    }
  }

  lemma BitsCancel(x: bv32, y: bv32)
    requires x & 1 == 0 && y & 1 == 0
    ensures x ^ y == (x | 1) ^ (y | 1)
  {
  }

  lemma FlagAdds(x: bv32, y: bv32)
    ensures IsRemainder(Plus(x, y)) <==> (IsRemainder(x) <==> IsRemainder(y))
  {
  }

  lemma PlusNothing(x: bv32)
    ensures Plus(x, x) == 0 && Plus(x, 0) == x
  {
  }

  lemma PlusCancels(x: bv32, y: bv32, z: bv32)
    ensures Plus(Plus(x, z), Plus(y, z)) == Plus(x, y)
    ensures Plus(Plus(x, z), y) == Plus(x, Plus(y, z)) == Plus(Plus(x, y), z)
  {
    hide Plus;
    PlusReorders(x, z, y);
    PlusMoves(x, y, z);
    PlusMoves(Plus(x, z), y, z);
    PlusMoves(Plus(x, y), z, z);
    PlusNothing(z);
    PlusNothing(Plus(x, y));
  }

  /** Dividing one bit further, of a sum: the sum of both. */
  lemma DivideAdds(divisor: bv32, x: bv32, y: bv32, a: bool, b: bool)
    ensures Divide(divisor, Plus(x, y), a != b) == Plus(Divide(divisor, x, a), Divide(divisor, y, b))
  {
    hide Plus, Shifted, IsRemainder;
    ShiftAdds(x, y, a, b);
    FlagAdds(Shifted(x, a), Shifted(y, b));
    PlusCancels(Shifted(x, a), Shifted(y, b), divisor);
  }

  lemma {:induction false} ZeroLeavesNothing(divisor: bv32, count: nat)
    ensures DivideBits(divisor, 0, 0, count) == 0
    decreases count
  {
    if count > 0 {
      AboveZero(count - 1);
      ZeroLeavesNothing(divisor, count - 1);
    }
  }

  /** What has no bit where the divisor begins is left as it is. */
  lemma ShortIsLeft(divisor: bv32, value: bv32)
    requires IsRemainder(value)
    ensures DivideBits(divisor, 0, value, 31) == value
  {
    NothingAbove(value);
    ZeroLeavesNothing(divisor, 31);
    assert Plus(0, 0) == 0 && Plus(0, value) == value;
    hide DivideBits, Above, Plus;
    DivideBitsSum(divisor, 0, value, 31);
  }

  /** The last bit apart from the others. */
  lemma {:induction false} DivideBitsLast(divisor: bv32, key: bv32, value: bv32, count: nat)
    ensures DivideBits(divisor, key, value, count + 1)
         == Divide(divisor, DivideBits(divisor, key, Above(value, 1), count), BitAt(value, 0))
    decreases count
  {
    if count == 0 {
      DivideBitsStep(divisor, key, value, 1);
      DivideBitsNone(divisor, Divide(divisor, key, BitAt(value, 0)), value);
      DivideBitsNone(divisor, key, Above(value, 1));
    } else {
      DivideBitsStep(divisor, key, value, count + 1);
      DivideBitsStep(divisor, key, Above(value, 1), count);
      BitAbove(value, count + 1);
      hide DivideBits, Divide, BitAt, Above;
      DivideBitsLast(divisor, Divide(divisor, key, BitAt(value, count)), value, count - 1);
    }
  }

  /** The divisor itself leaves nothing. */
  lemma DivisorLeavesNothing(divisor: bv32)
    requires IsDivisor(divisor)
    ensures DivideBits(divisor, 0, divisor, 32) == 0
  {
    HalfRemains(divisor);
    DivideBitsLast(divisor, 0, divisor, 31);
    ShortIsLeft(divisor, Above(divisor, 1));
    OneMoreAbove(divisor, 1);
    hide DivideBits;
    assert Shifted(Above(divisor, 1), BitAt(divisor, 0)) == divisor;
    assert divisor ^ divisor == 0;
  }

  lemma HalfRemains(divisor: bv32)
    ensures IsRemainder(Above(divisor, 1))
  {
    AboveOne(divisor, 0);
  }

  /** What has room for one more bit below where the divisor begins. */
  predicate HasRoom(key: bv32) {
    key & 0xc000_0000 == 0
  }

  /** And for eight more. */
  predicate HasRoomForByte(key: bv32) {
    key & 0xff80_0000 == 0
  }

  function Twice(key: bv32): bv32 {
    key << 1
  }

  /** A byte behind what there is. */
  function WithByte(key: bv32, b: bv8): bv32 {
    (key << 8) | (b as bv32)
  }

  lemma ZeroGoesIn(divisor: bv32, key: bv32, count: nat)
    requires HasRoom(key)
    ensures DivideBits(divisor, key, 0, count + 1) == DivideBits(divisor, Twice(key), 0, count)
  {
    AboveZero(count);
    DivideBitsStep(divisor, key, 0, count + 1);
    hide DivideBits, Above;
    assert Divide(divisor, key, false) == Twice(key);
  }

  lemma RoomLasts(key: bv32)
    requires HasRoomForByte(key)
    ensures var k2 := Twice(Twice(key));
            var k4 := Twice(Twice(k2));
            var k6 := Twice(Twice(k4));
            && HasRoom(key) && HasRoom(Twice(key)) && HasRoom(k2) && HasRoom(Twice(k2)) && HasRoom(k4)
            && HasRoom(Twice(k4)) && HasRoom(k6) && HasRoom(Twice(k6)) && Twice(Twice(k6)) == key << 8
  {
  }

  lemma TwoZerosGoIn(divisor: bv32, key: bv32, count: nat)
    requires HasRoom(key) && HasRoom(Twice(key))
    ensures DivideBits(divisor, key, 0, count + 2) == DivideBits(divisor, Twice(Twice(key)), 0, count)
  {
    hide *;
    ZeroGoesIn(divisor, key, count + 1);
    ZeroGoesIn(divisor, Twice(key), count);
  }

  lemma ZerosGoIn(divisor: bv32, key: bv32)
    requires HasRoomForByte(key)
    ensures DivideBits(divisor, key, 0, 8) == key << 8
  {
    hide *;
    RoomLasts(key);
    var k2 := Twice(Twice(key));
    var k4 := Twice(Twice(k2));
    var k6 := Twice(Twice(k4));
    TwoZerosGoIn(divisor, key, 6);
    TwoZerosGoIn(divisor, k2, 4);
    TwoZerosGoIn(divisor, k4, 2);
    TwoZerosGoIn(divisor, k6, 0);
    DivideBitsNone(divisor, Twice(Twice(k6)), 0);
  }

  lemma NothingAboveByte(b: bv8)
    ensures Above(b as bv32, 8) == 0 && IsRemainder(b as bv32)
  {
    var v := b as bv32;
    AboveOne(v, 0);
    AboveOne(v, 1);
    AboveOne(v, 2);
    AboveOne(v, 3);
    AboveOne(v, 4);
    AboveOne(v, 5);
    AboveOne(v, 6);
    AboveOne(v, 7);
    hide Above;
  }

  /** The bits of a byte go in behind those that are there, as long as none gets to where the divisor begins. */
  lemma ByteGoesIn(divisor: bv32, key: bv32, b: bv8)
    requires HasRoomForByte(key)
    ensures DivideBits(divisor, key, b as bv32, 8) == WithByte(key, b)
  {
    NothingAboveByte(b);
    assert Plus(key, 0) == key;
    assert Plus(key << 8, b as bv32) == WithByte(key, b);
    hide DivideBits, Above, Plus;
    DivideBitsSum(divisor, key, b as bv32, 8);
    ZerosGoIn(divisor, key);
  }

  lemma BytesHaveRoom(a: bv8, b: bv8)
    ensures HasRoomForByte(0) && HasRoomForByte(WithByte(0, a)) && HasRoomForByte(WithByte(WithByte(0, a), b))
  {
  }

  /** Three bytes are fewer bits than the divisor has, so they are left as they are. */
  lemma BytesAreLeft(divisor: bv32, a: bv8, b: bv8, c: bv8)
    ensures DivideBytes(divisor, 0, [a, b, c]) == WithByte(WithByte(WithByte(0, a), b), c)
  {
    BytesHaveRoom(a, b);
    hide *;
    ByteGoesIn(divisor, 0, a);
    ByteGoesIn(divisor, WithByte(0, a), b);
    ByteGoesIn(divisor, WithByte(WithByte(0, a), b), c);
    BytesStep(divisor, 0, a, [b, c]);
    BytesStep(divisor, WithByte(0, a), b, [c]);
    BytesStep(divisor, WithByte(WithByte(0, a), b), c, []);
    BytesNone(divisor, WithByte(WithByte(WithByte(0, a), b), c));
    assert [a] + [b, c] == [a, b, c] && [b] + [c] == [b, c] && [c] + [] == [c];
  }

  lemma BytesNone(divisor: bv32, key: bv32)
    ensures DivideBytes(divisor, key, []) == key
  {
  }

  lemma BytesStep(divisor: bv32, key: bv32, b: bv8, data: seq<bv8>)
    ensures DivideBytes(divisor, key, [b] + data) == DivideBytes(divisor, DivideBits(divisor, key, b as bv32, 8), data)
  {
    hide DivideBits;
    assert ([b] + data)[0] == b && ([b] + data)[1..] == data;
  }

  /** compute_crc. */
  method ComputeCrc(data: seq<bv8>, divisor: bv32, remainder: bv32) returns (key: bv32)
    requires IsDivisor(divisor)
    ensures key == Crc(data, divisor, remainder) && IsRemainder(key)
  {
    CrcRemains(data, divisor, remainder);
    MaskLast();
    hide DivideBits, Above, Mask, IsRemainder;
    key := 0;
    var i := 0;
    while i < |data|
      invariant i <= |data|
      invariant DivideBytes(divisor, key, data[i..]) == DivideBytes(divisor, 0, data)
    {
      key := FeedBits(divisor, key, data[i] as bv32, 0x80, 8);
      i := i + 1;
    }
    key := FeedBits(divisor, key, remainder, FLAG >> 1, 31);
  }

  /** The two inner loops of compute_crc, which run a mask down the bits of a value. */
  method FeedBits(divisor: bv32, key: bv32, value: bv32, top: bv32, ghost count: nat) returns (key': bv32)
    requires 0 < count <= 32 && top == Mask(count)
    ensures key' == DivideBits(divisor, key, value, count)
  {
    hide DivideBits, Divide, BitAt, Mask, Above, Meets;
    key' := key;
    var bit := top;
    ghost var left := count;
    MaskIsSet(count);
    MaskLast();
    while bit != 0
      invariant left <= count
      invariant bit == Mask(left) && (left == 0 ==> bit == 0)
      invariant DivideBits(divisor, key', value, left) == DivideBits(divisor, key, value, count)
      decreases left
    {
      assert left != 0;
      MaskMeetsBit(value, left);
      DivideBitsStep(divisor, key', value, left);
      key' := FeedBit(divisor, key', Meets(value, bit));
      MaskHalves(left);
      bit := bit >> 1;
      left := left - 1;
    }
    if left > 0 {
      MaskIsSet(left);
    }
    DivideBitsNone(divisor, key', value);
  }

  /** One turn of those loops. */
  method FeedBit(divisor: bv32, key: bv32, bit: bool) returns (key': bv32)
    ensures key' == Divide(divisor, key, bit)
  {
    hide Plus, Shifted, IsRemainder;
    key' := Shifted(key, bit);
    if !IsRemainder(key') {
      key' := Plus(key', divisor);
    }
  }

  lemma DivideBitsStep(divisor: bv32, key: bv32, value: bv32, count: nat)
    requires count > 0
    ensures DivideBits(divisor, key, value, count)
         == DivideBits(divisor, Divide(divisor, key, BitAt(value, count - 1)), value, count - 1)
  {
  }

  lemma DivideBitsNone(divisor: bv32, key: bv32, value: bv32)
    ensures DivideBits(divisor, key, value, 0) == key
  {
  }

  // ---------------------------------------------------------------- the cipher

  /** How many bits of a byte are enciphered: none of a control character, else all below the two or
      three that say what kind of byte it is. */
  function BitsUsed(b: bv8): (r: nat)
    ensures r in {0, 5, 6, 7}
  {
    if b & 0xe0 == 0x20 then 5 else if b & 0xc0 == 0x40 then 6 else if b & 0x80 == 0x80 then 7 else 0
  }

  function LowBits(count: nat): bv32
    requires count in {0, 5, 6, 7}
  {
    if count == 5 then 0x1f else if count == 6 then 0x3f else if count == 7 then 0x7f else 0
  }

  function Encipher(key: bv32, b: bv8): bv8 {
    b ^ ((key & LowBits(BitsUsed(b))) as bv8)
  }

  /** Turns a key of 31 bits to the right. */
  function Rotate(key: bv32, count: nat): bv32
    requires count in {0, 5, 6, 7}
  {
    if count == 5 then (key >> 5) | ((key & 0x1f) << 26)
    else if count == 6 then (key >> 6) | ((key & 0x3f) << 25)
    else if count == 7 then (key >> 7) | ((key & 0x7f) << 24)
    else key
  }

  // What these come to, by values and bit by bit.

  /** How much of a byte is enciphered goes by its value. */
  lemma BitsByValue(b: bv8)
    ensures BitsUsed(b) == if b < 0x20 then 0 else if b < 0x40 then 5 else if b < 0x80 then 6 else 7
  {
  }

  predicate KeyBit(key: bv32, i: bv6)
    requires i < 32
  {
    (key >> i) & 1 == 1
  }

  /** Enciphering flips bits of a byte, of those that count the ones where the key has ones. */
  lemma EnciphersBits(key: bv32, b: bv8, i: bv6)
    requires i < 8
    ensures KeyBit((Encipher(key, b) ^ b) as bv32, i) <==>
            KeyBit(key, i) && i < (if b < 0x20 then 0 else if b < 0x40 then 5 else if b < 0x80 then 6 else 7)
  {
  }

  /** Turning the key brings every one of its 31 bits so many places down, those at the bottom to the top. */
  lemma RotatesBits(key: bv32, i: bv6)
    requires IsRemainder(key) && i < 31
    ensures IsRemainder(Rotate(key, 5)) && IsRemainder(Rotate(key, 6)) && IsRemainder(Rotate(key, 7))
    ensures KeyBit(Rotate(key, 0), i) <==> KeyBit(key, i)
    ensures KeyBit(Rotate(key, 5), if i < 5 then i + 26 else i - 5) <==> KeyBit(key, i)
    ensures KeyBit(Rotate(key, 6), if i < 6 then i + 25 else i - 6) <==> KeyBit(key, i)
    ensures KeyBit(Rotate(key, 7), if i < 7 then i + 24 else i - 7) <==> KeyBit(key, i)
  {
  }

  function Ciphered(key: bv32, item: seq<bv8>): (r: seq<bv8>)
    ensures |r| == |item|
    decreases |item|
  {
    if item == [] then [] else [Encipher(key, item[0])] + Ciphered(Rotate(key, BitsUsed(item[0])), item[1..])
  }

  /** An enciphered byte is of the kind it was, and enciphering it again gives it back. */
  lemma EncipherKeepsKind(key: bv32, b: bv8)
    ensures BitsUsed(Encipher(key, b)) == BitsUsed(b)
    ensures Encipher(key, b) == 0 <==> b == 0
  {
  }

  lemma EncipherTwice(key: bv32, b: bv8)
    ensures Encipher(key, Encipher(key, b)) == b
  {
    EncipherKeepsKind(key, b);
    XorTwice(b, (key & LowBits(BitsUsed(b))) as bv8);
  }

  lemma XorTwice(x: bv8, y: bv8)
    ensures x ^ y ^ y == x
  {
  }

  predicate IsString(s: seq<bv8>) {
    forall b :: b in s ==> b != 0
  }

  predicate HasControls(s: seq<bv8>) {
    exists b :: b in s && BitsUsed(b) == 0
  }

  /** Enciphering and deciphering are one: both passes turn the key alike. */
  lemma {:induction false} CipherTwice(key: bv32, item: seq<bv8>)
    ensures Ciphered(key, Ciphered(key, item)) == item
    decreases |item|
  {
    hide Encipher, Rotate;
    if item != [] {
      var once := Ciphered(key, item);
      EncipherKeepsKind(key, item[0]);
      EncipherTwice(key, item[0]);
      CipherTwice(Rotate(key, BitsUsed(item[0])), item[1..]);
      assert once[0] == Encipher(key, item[0]) && once[1..] == Ciphered(Rotate(key, BitsUsed(item[0])), item[1..]);
    }
  }

  /** Every byte is of the kind it was; in particular an item never gets a NUL or a control character. */
  lemma {:induction false} CipherKeepsKinds(key: bv32, item: seq<bv8>)
    ensures forall i :: 0 <= i < |item| ==> BitsUsed(Ciphered(key, item)[i]) == BitsUsed(item[i])
    ensures forall i :: 0 <= i < |item| ==> (Ciphered(key, item)[i] == 0 <==> item[i] == 0)
    decreases |item|
  {
    hide Encipher, Rotate, BitsUsed;
    if item != [] {
      EncipherKeepsKind(key, item[0]);
      CipherKeepsKinds(Rotate(key, BitsUsed(item[0])), item[1..]);
    }
  }

  /** What one makes of a string is a string again, with control characters only if it had some, and
      gives it back under the same key string. */
  lemma LamerCipherTwice(keystr: seq<bv8>, item: seq<bv8>)
    ensures var key := Crc(keystr, GENERATOR, 0);
            && Ciphered(key, Ciphered(key, item)) == item
            && (IsString(Ciphered(key, item)) <==> IsString(item))
            && (HasControls(Ciphered(key, item)) <==> HasControls(item))
  {
    var key := Crc(keystr, GENERATOR, 0);
    hide Crc, Encipher, Rotate, BitsUsed, Ciphered;
    CipherTwice(key, item);
    CipherKeepsKinds(key, item);
    var once := Ciphered(key, item);
    assert forall i :: 0 <= i < |item| ==> item[i] in item && once[i] in once;
  }

  /** lamer_cipher. A control character is left as it is; `refused` says that there is one, on which
      the assertion at line 122 fails where assertions are on. */
  method LamerCipher(keystr: seq<bv8>, item: seq<bv8>) returns (output: array<bv8>, refused: bool)
    requires IsString(keystr) && IsString(item)
    ensures fresh(output) && output[..] == Ciphered(Crc(keystr, GENERATOR, 0), item)
    ensures refused <==> HasControls(item)
  {
    hide Crc, BitsUsed, Rotate, Encipher, HasControls, Ciphered;
    refused := false;
    output := new bv8[|item|](i requires 0 <= i < |item| => item[i]);
    var key := ComputeCrc(keystr, GENERATOR, 0);
    CipheredNone(key);
    ghost var first := key;
    var i := 0;
    while i < |item|
      invariant i <= |item| && output[i..] == item[i..]
      invariant Ciphered(first, item) == output[..i] + Ciphered(key, item[i..])
      invariant refused <==> HasControls(item[..i])
    {
      var b := item[i];
      CipheredStep(key, item, i);
      HasControlsMore(item, i);
      var bits := BitsUsed(b);
      if bits == 0 {
        refused := true;
        NotEnciphered(key, b);
      } else {
        output[i] := Encipher(key, b);
        key := Rotate(key, bits);
      }
      i := i + 1;
    }
    assert item[..i] == item && output[..i] == output[..] && item[i..] == [];
    CipheredNone(key);
  }

  lemma CipheredStep(key: bv32, item: seq<bv8>, i: nat)
    requires i < |item|
    ensures Ciphered(key, item[i..]) == [Encipher(key, item[i])] + Ciphered(Rotate(key, BitsUsed(item[i])), item[i + 1..])
  {
    assert item[i..][0] == item[i] && item[i..][1..] == item[i + 1..];
  }

  lemma CipheredNone(key: bv32)
    ensures Ciphered(key, []) == [] && !HasControls([])
  {
  }

  lemma NotEnciphered(key: bv32, b: bv8)
    requires BitsUsed(b) == 0
    ensures Encipher(key, b) == b && Rotate(key, BitsUsed(b)) == key
  {
  }

  lemma HasControlsMore(s: seq<bv8>, i: nat)
    requires i < |s|
    ensures HasControls(s[..i + 1]) <==> HasControls(s[..i]) || BitsUsed(s[i]) == 0
  {
    assert s[..i + 1] == s[..i] + [s[i]];
  }
}
