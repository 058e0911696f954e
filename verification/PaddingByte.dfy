/** algo/sha/md_helper.c: the byte that carries the extra bits of a message and the first padding bit, with the
    source's own mask and or on 32-bit words. */
module PaddingByte {
  import opened Bytes
  import opened FipsPadding

  /** (unsigned char)ub */
  function LowByte(ub: bv32): Byte {
    ((ub & 0xFF) as bv8) as int
  }

  /** 0x80 >> n */
  function Marker(n: nat): (z: bv32)
    requires n <= 7
  {
    0x80 >> n
  }

  /** ((ub & -z) | z) & 0xFF */
  function Masked(ub: bv32, z: bv32): Byte {
    ((((ub & (0 - z)) | z) & 0xFF) as bv8) as int
  }

  function PadByte(ub: bv32, n: nat): Byte
    requires n <= 7
  {
    Masked(ub, Marker(n))
  }

  /** The n bits of ub numbered 7 down to 8 - n. */
  function ExtraBits(ub: bv32, n: nat): (s: seq<bool>)
    requires n <= 7
    ensures |s| == n
  {
    ByteBits(LowByte(ub))[..n]
  }

  /** 1 << v */
  function OneBit(v: nat): bv8
    requires v <= 7
  {
    if v == 0 then 1 else OneBit(v - 1) << 1
  }

  lemma OneBitIs(v: nat)
    requires v <= 7
    ensures OneBit(v) == if v == 0 then 0x01 else if v == 1 then 0x02 else if v == 2 then 0x04 else if v == 3 then 0x08
                         else if v == 4 then 0x10 else if v == 5 then 0x20 else if v == 6 then 0x40 else 0x80
  {
    if v > 0 {
      OneBitIs(v - 1);
    }
  }

  lemma MarkerIs(n: nat)
    requires n <= 7
    ensures Marker(n) == OneBit(7 - n) as bv32
  {
    MarkerBits(n);
    OneBitIs(7 - n);
  }

  lemma MarkerBits(n: nat)
    requires n <= 7
    ensures Marker(n) == if n == 0 then 0x80 else if n == 1 then 0x40 else if n == 2 then 0x20 else if n == 3 then 0x10
                         else if n == 4 then 0x08 else if n == 5 then 0x04 else if n == 6 then 0x02 else 0x01
  {
  }

  /** (b & -z) | z on a byte. */
  function Top(b: bv8, z: bv8): bv8 {
    (b & (0 - z)) | z
  }

  /** Only the low byte of ub matters. */
  lemma LowByteDecides(ub: bv32, z: bv8)
    ensures (((ub & (0 - (z as bv32))) | (z as bv32)) & 0xFF) as bv8 == (((ub & 0xFF) as bv8) & (0 - z)) | z
  {
  }

  lemma MaskedIs(ub: bv32, z: bv8)
    ensures Masked(ub, z as bv32) == Top((ub & 0xFF) as bv8, z) as int
  {
    LowByteDecides(ub, z);
  }

  lemma TopStep(b: bv8, z: bv8)
    ensures Top(b, z << 1) == Top(b >> 1, z) << 1
    ensures z < 0x80 ==> Top(b >> 1, z) < 0x80
  {
    ShiftMask(b, z);
    SmallMask(b, z);
  }

  lemma ShiftMask(b: bv8, z: bv8)
    ensures (b & (0 - (z << 1))) | (z << 1) == (((b >> 1) & (0 - z)) | z) << 1
  {
  }

  lemma SmallMask(b: bv8, z: bv8)
    ensures z < 0x80 ==> ((b >> 1) & (0 - z)) | z < 0x80
  {
  }

  lemma HalfOf(b: bv8)
    ensures (b >> 1) as int == b as int / 2
  {
  }

  lemma DoubleOf(b: bv8)
    requires b < 0x80
    ensures (b << 1) as int == 2 * (b as int)
  {
  }

  lemma LastBit(b: bv8)
    ensures Top(b, 1) as int == 2 * (b as int / 2) + 1
  {
    LastBitMask(b);
  }

  lemma LastBitMask(b: bv8)
    ensures ((b & (0 - 1)) | 1) as int == 2 * (b as int / 2) + 1
  {
  }

  /** Masking and marking at bit v keeps the bits above it and sets it. */
  lemma {:induction false} TopIs(b: bv8, v: nat)
    requires v <= 7
    ensures Top(b, OneBit(v)) as int == Pow2(v) * (2 * Halve(b as int, v + 1) + 1)
  {
    hide Top, OneBit, Pow2, Halve;
    TopUnfolds(b as int, v);
    if v == 0 {
      LastBit(b);
    } else {
      OneBitIs(v - 1);
      TopStep(b, OneBit(v - 1));
      DoubleOf(Top(b >> 1, OneBit(v - 1)));
      HalfOf(b);
      TopIs(b >> 1, v - 1);
      DoublePow(v - 1, 2 * Halve(b as int / 2, v) + 1);
    }
  }

  lemma TopUnfolds(x: nat, v: nat)
    requires v <= 7
    ensures OneBit(0) == 1 && Pow2(0) == 1 && Halve(x, v + 1) == Halve(x / 2, v) && Halve(x / 2, 0) == x / 2
    ensures v > 0 ==> OneBit(v) == OneBit(v - 1) << 1
  {
  }

  /** The extra bits, then a one bit, then zeros, as a number. */
  lemma PadByteIs(ub: bv32, n: nat)
    requires n <= 7
    ensures PadByte(ub, n) == Pow2(7 - n) * (2 * Halve(LowByte(ub), 8 - n) + 1)
  {
    hide Marker, Masked, Halve, Pow2, Top, OneBit;
    MarkerIs(n);
    MaskedIs(ub, OneBit(7 - n));
    TopIs((ub & 0xFF) as bv8, 7 - n);
  }

  lemma TopBits(ub: bv32, n: nat)
    requires n <= 7
    ensures ExtraBits(ub, n) == NumberBits(Halve(LowByte(ub), 8 - n), n)
  {
    SplitBits(LowByte(ub), n, 8 - n);
  }

  /** Multiplying by a power of two appends zero bits. */
  lemma {:induction false} ShiftedBits(y: nat, w: nat, v: nat)
    ensures NumberBits(Pow2(v) * y, w + v) == NumberBits(y, w) + ZeroBits(v)
  {
    if v > 0 {
      var p := Pow2(v - 1) * y;
      DoublePow(v - 1, y);
      ShiftedBits(y, w, v - 1);
      assert NumberBits(2 * p, w + v) == NumberBits(p, w + v - 1) + [false];
    }
  }

  lemma PadBits(top: nat, n: nat)
    requires n <= 7
    ensures NumberBits(Pow2(7 - n) * (2 * top + 1), 8) == NumberBits(top, n) + [true] + ZeroBits(7 - n)
  {
    ShiftedBits(2 * top + 1, n + 1, 7 - n);
    assert NumberBits(2 * top + 1, n + 1) == NumberBits(top, n) + [true];
  }

  /** The pad byte is the extra bits, a one bit and zeros. */
  lemma PadByteBits(ub: bv32, n: nat)
    requires n <= 7
    ensures Pack(ExtraBits(ub, n) + [true] + ZeroBits(7 - n)) == [PadByte(ub, n)]
  {
    hide PadByte, LowByte, Pack, ExtraBits, NumberBits, Halve, Pow2;
    var top := Halve(LowByte(ub), 8 - n);
    var x: nat := Pow2(7 - n) * (2 * top + 1);
    PadByteIs(ub, n);
    TopBits(ub, n);
    PadBits(top, n);
    PackOneByte(x);
  }
}
