/** util.c: bin2hex and hex2bin. hex2bin checks and decodes eight characters at a time inside one
    64-bit word, then finishes with a scalar loop. */
module Hex {
  import opened Bytes

  // ----- what a hex string means -----

  predicate IsHexDigit(c: Byte) {
    '0' as int <= c <= '9' as int || 'a' as int <= c <= 'f' as int || 'A' as int <= c <= 'F' as int
  }

  function HexValue(c: Byte): (v: int)
    requires IsHexDigit(c)
    ensures 0 <= v < 16
  {
    if c <= '9' as int then c - '0' as int
    else if c >= 'a' as int then c - 'a' as int + 10
    else c - 'A' as int + 10
  }

  predicate AllHex(s: seq<Byte>) {
    forall i :: 0 <= i < |s| ==> IsHexDigit(s[i])
  }

  /** The bytes a string of hex digits writes, two digits a byte. */
  function Decode(s: seq<Byte>): (b: seq<Byte>)
    requires AllHex(s) && |s| % 2 == 0
    ensures |b| == |s| / 2
  {
    if s == [] then []
    else Decode(s[..|s| - 2]) + [16 * HexValue(s[|s| - 2]) + HexValue(s[|s| - 1])]
  }

  // ----- bin2hex -----

  function HexChar(v: int): (c: Byte)
    requires 0 <= v < 16
    ensures IsHexDigit(c) && HexValue(c) == v
  {
    if v < 10 then '0' as int + v else 'a' as int + v - 10
  }

  function Encode(b: seq<Byte>): (s: seq<Byte>)
    ensures |s| == 2 * |b| && AllHex(s)
  {
    if b == [] then []
    else Encode(b[..|b| - 1]) + [HexChar(HighDigit(b[|b| - 1])), HexChar(LowDigit(b[|b| - 1]))]
  }

  function HighDigit(x: Byte): (v: int)
    ensures 0 <= v < 16
  {
    x / 16
  }

  function LowDigit(x: Byte): (v: int)
    ensures 0 <= v < 16
  {
    x % 16
  }

  /** bin2hex: "%02x" for every byte, then the terminating NUL that sprintf leaves. */
  method Bin2Hex(s: array<Byte>, p: seq<Byte>)
    requires s.Length == 2 * |p| + 1
    modifies s
    ensures s[..2 * |p|] == Encode(p)
    ensures p != [] ==> s[2 * |p|] == 0
  {
    for i := 0 to |p|
      invariant s[..2 * i] == Encode(p[..i])
      invariant i > 0 ==> s[2 * i] == 0
    {
      assert p[..i + 1][..i] == p[..i];
      s[2 * i] := HexChar(HighDigit(p[i]));
      s[2 * i + 1] := HexChar(LowDigit(p[i]));
      s[2 * i + 2] := 0;
    }
    assert p[..|p|] == p;
  }

  /** The hex form is in lower case, the high digit of every byte first. */
  lemma {:induction false} EncodeAt(b: seq<Byte>, i: nat)
    requires i < |b|
    ensures Encode(b)[2 * i] == "0123456789abcdef"[b[i] / 16] as int
    ensures Encode(b)[2 * i + 1] == "0123456789abcdef"[b[i] % 16] as int
  {
    hide HexChar, IsHexDigit;
    if i < |b| - 1 {
      EncodeAt(b[..|b| - 1], i);
    } else {
      HexCharIs(b[i] / 16);
      HexCharIs(b[i] % 16);
    }
  }

  lemma HexCharIs(v: int)
    requires 0 <= v < 16
    ensures HexChar(v) == "0123456789abcdef"[v] as int
  {
  }

  lemma {:induction false} DecodeEncode(b: seq<Byte>)
    ensures Decode(Encode(b)) == b
  {
    hide HexChar, HexValue, IsHexDigit, HighDigit, LowDigit;
    if b != [] {
      var init, x := b[..|b| - 1], b[|b| - 1];
      SplitByte(x);
      DecodeEncode(init);
      DecodeAppend(Encode(init), HexChar(HighDigit(x)), HexChar(LowDigit(x)));
    }
  }

  lemma SplitByte(x: Byte)
    ensures 16 * HighDigit(x) + LowDigit(x) == x
  {
  }

  lemma DecodeAppend(s: seq<Byte>, hi: Byte, lo: Byte)
    requires AllHex(s) && |s| % 2 == 0 && IsHexDigit(hi) && IsHexDigit(lo)
    ensures AllHex(s + [hi, lo]) && |s + [hi, lo]| % 2 == 0
    ensures Decode(s + [hi, lo]) == Decode(s) + [16 * HexValue(hi) + HexValue(lo)]
  {
    var t := s + [hi, lo];
    assert t[..|t| - 2] == s;
  }

  // ----- eight characters in one word -----

  const ONES: bv64 := 0x0101010101010101
  const HIGH: bv64 := 0x8080808080808080

  /** Eight bytes as memcpy puts them into a 64-bit word on a little-endian machine. */
  function Chunk(b0: bv8, b1: bv8, b2: bv8, b3: bv8, b4: bv8, b5: bv8, b6: bv8, b7: bv8): bv64 {
    (b0 as bv64) | ((b1 as bv64) << 8) | ((b2 as bv64) << 16) | ((b3 as bv64) << 24)
    | ((b4 as bv64) << 32) | ((b5 as bv64) << 40) | ((b6 as bv64) << 48) | ((b7 as bv64) << 56)
  }

  /** hex_swar_invalid_mask */
  function InvalidMask(chunk: bv64): bv64 {
    var above39 := (chunk + ONES * (0x7f - 0x39)) & HIGH;
    var below30 := !((chunk | HIGH) - ONES * 0x30) & HIGH;
    var norm := chunk | (ONES * 0x20);
    var above66 := (norm + ONES * (0x7f - 0x66)) & HIGH;
    var below61 := !((norm | HIGH) - ONES * 0x61) & HIGH;
    (above39 | below30) & (above66 | below61)
  }

  /** hex_decode_nibble_branchless */
  function Nibble(c: bv8): bv8 {
    (c & 0x0f) + ((c >> 6) & 1) * 9
  }

  /** The decoded word: byte j of the result sits in its bits 16 j to 16 j + 7. */
  function PackWord(chunk: bv64): bv64 {
    var lo4 := chunk & 0x0f0f0f0f0f0f0f0f;
    var bit6 := (chunk >> 6) & ONES;
    var vals := lo4 + bit6 * 9;
    var hi := (vals & 0x00ff00ff00ff00ff) << 4;
    var lo := (vals >> 8) & 0x00ff00ff00ff00ff;
    hi | lo
  }

  /** (unsigned char)x */
  function LowByte(x: bv64): Byte {
    ((x & 0xff) as bv8) as int
  }

  /** (unsigned char)(pack >> 16 k), byte k of the four that a chunk decodes to. */
  function ByteAt(pack: bv64, k: nat): Byte
    requires k < 4
  {
    if k == 0 then LowByte(pack)
    else if k == 1 then LowByte(pack >> 16)
    else if k == 2 then LowByte(pack >> 32)
    else LowByte(pack >> 48)
  }

  // ----- what the mask accepts, byte by byte -----

  function AsBits(c: Byte): bv8 {
    c as bv8
  }

  /** The carries that come into a lane from the one below, in the digit test and in the letter test. */
  datatype Carry = Carry(digit: bool, letter: bool)

  const NO_CARRY := Carry(false, false)

  /** The carries that a lane's additions send to the next one. */
  function CarryOut(c: Byte, k: Carry): Carry {
    Carry(c >= 0xBA || (c == 0xB9 && k.digit),
          0xC7 <= c <= 0xDF || c >= 0xE7 || ((c == 0xC6 || c == 0xE6) && k.letter))
  }

  /** What the mask accepts in a lane. */
  predicate LaneAccepted(c: Byte, k: Carry) {
    CarryOut(c, k).digit
    || (IsHexDigit(c) && !(c == '9' as int && k.digit) && !((c == 'f' as int || c == 'F' as int) && k.letter))
  }

  predicate LanesAccepted(s: seq<Byte>, k: Carry) {
    s == [] || (LaneAccepted(s[0], k) && LanesAccepted(s[1..], CarryOut(s[0], k)))
  }

  function CarryBits(c: bv8, k: Carry): Carry {
    Carry(c >= 0xBA || (c == 0xB9 && k.digit), (c | 0x20) >= 0xE7 || ((c | 0x20) == 0xE6 && k.letter))
  }

  predicate LaneBits(c: bv8, k: Carry) {
    c >= 0xBA || (c == 0xB9 && k.digit)
    || ((0x30 <= c <= 0x39 || 0x61 <= c <= 0x66 || 0x41 <= c <= 0x46)
        && !(c == 0x39 && k.digit) && !((c | 0x20) == 0x66 && k.letter))
  }

  /** The letter test's comparisons, on the byte before case folding. */
  lemma Folded(x: bv8)
    ensures (x | 0x20) >= 0xE7 <==> 0xC7 <= x <= 0xDF || x >= 0xE7
    ensures (x | 0x20) == 0xE6 <==> x == 0xC6 || x == 0xE6
    ensures (x | 0x20) == 0x66 <==> x == 0x46 || x == 0x66
  {
  }

  lemma CarryIs(c: Byte, k: Carry)
    ensures CarryOut(c, k) == CarryBits(AsBits(c), k)
  {
    hide AsBits;
    Folded(AsBits(c));
    HighBits(c);
    HighLetterBits(c);
  }

  lemma HighBits(c: Byte)
    ensures AsBits(c) >= 0xBA <==> c >= 0xBA
    ensures AsBits(c) == 0xB9 <==> c == 0xB9
  {
  }

  lemma HighLetterBits(c: Byte)
    ensures 0xC7 <= AsBits(c) <= 0xDF || AsBits(c) >= 0xE7 <==> 0xC7 <= c <= 0xDF || c >= 0xE7
    ensures AsBits(c) == 0xC6 || AsBits(c) == 0xE6 <==> c == 0xC6 || c == 0xE6
  {
  }

  lemma LaneIs(c: Byte, k: Carry)
    ensures LaneAccepted(c, k) == LaneBits(AsBits(c), k)
  {
    hide AsBits, IsHexDigit;
    Folded(AsBits(c));
    HighBits(c);
    DigitBits(c);
    LastDigitBits(c);
  }

  lemma DigitBits(c: Byte)
    ensures 0x30 <= AsBits(c) <= 0x39 || 0x61 <= AsBits(c) <= 0x66 || 0x41 <= AsBits(c) <= 0x46 <==> IsHexDigit(c)
  {
  }

  lemma LastDigitBits(c: Byte)
    ensures AsBits(c) == 0x39 <==> c == '9' as int
    ensures AsBits(c) == 0x46 || AsBits(c) == 0x66 <==> c == 'f' as int || c == 'F' as int
  {
  }

  /** The mask identity on bits alone, the carries between lanes named. */
  lemma MaskIdentity(b0: bv8, b1: bv8, b2: bv8, b3: bv8, b4: bv8, b5: bv8, b6: bv8, b7: bv8)
    ensures
      var x := (b0 as bv64) | ((b1 as bv64) << 8) | ((b2 as bv64) << 16) | ((b3 as bv64) << 24)
               | ((b4 as bv64) << 32) | ((b5 as bv64) << 40) | ((b6 as bv64) << 48) | ((b7 as bv64) << 56);
      var above39 := (x + 0x4646464646464646) & 0x8080808080808080;
      var below30 := !((x | 0x8080808080808080) - 0x3030303030303030) & 0x8080808080808080;
      var above66 := ((x | 0x2020202020202020) + 0x1919191919191919) & 0x8080808080808080;
      var below61 := !((x | 0x2020202020202020 | 0x8080808080808080) - 0x6161616161616161) & 0x8080808080808080;
      var d0, l0 := b0 >= 0xBA, (b0 | 0x20) >= 0xE7;
      var d1, l1 := b1 >= 0xBA || (b1 == 0xB9 && d0), (b1 | 0x20) >= 0xE7 || ((b1 | 0x20) == 0xE6 && l0);
      var d2, l2 := b2 >= 0xBA || (b2 == 0xB9 && d1), (b2 | 0x20) >= 0xE7 || ((b2 | 0x20) == 0xE6 && l1);
      var d3, l3 := b3 >= 0xBA || (b3 == 0xB9 && d2), (b3 | 0x20) >= 0xE7 || ((b3 | 0x20) == 0xE6 && l2);
      var d4, l4 := b4 >= 0xBA || (b4 == 0xB9 && d3), (b4 | 0x20) >= 0xE7 || ((b4 | 0x20) == 0xE6 && l3);
      var d5, l5 := b5 >= 0xBA || (b5 == 0xB9 && d4), (b5 | 0x20) >= 0xE7 || ((b5 | 0x20) == 0xE6 && l4);
      var d6, l6 := b6 >= 0xBA || (b6 == 0xB9 && d5), (b6 | 0x20) >= 0xE7 || ((b6 | 0x20) == 0xE6 && l5);
      ((above39 | below30) & (above66 | below61) == 0) == (
        (b0 >= 0xBA || 0x30 <= b0 <= 0x39 || 0x61 <= b0 <= 0x66 || 0x41 <= b0 <= 0x46)
        && (b1 >= 0xBA || (b1 == 0xB9 && d0)
           || ((0x30 <= b1 <= 0x39 || 0x61 <= b1 <= 0x66 || 0x41 <= b1 <= 0x46)
               && !(b1 == 0x39 && d0) && !((b1 | 0x20) == 0x66 && l0)))
        && (b2 >= 0xBA || (b2 == 0xB9 && d1)
           || ((0x30 <= b2 <= 0x39 || 0x61 <= b2 <= 0x66 || 0x41 <= b2 <= 0x46)
               && !(b2 == 0x39 && d1) && !((b2 | 0x20) == 0x66 && l1)))
        && (b3 >= 0xBA || (b3 == 0xB9 && d2)
           || ((0x30 <= b3 <= 0x39 || 0x61 <= b3 <= 0x66 || 0x41 <= b3 <= 0x46)
               && !(b3 == 0x39 && d2) && !((b3 | 0x20) == 0x66 && l2)))
        && (b4 >= 0xBA || (b4 == 0xB9 && d3)
           || ((0x30 <= b4 <= 0x39 || 0x61 <= b4 <= 0x66 || 0x41 <= b4 <= 0x46)
               && !(b4 == 0x39 && d3) && !((b4 | 0x20) == 0x66 && l3)))
        && (b5 >= 0xBA || (b5 == 0xB9 && d4)
           || ((0x30 <= b5 <= 0x39 || 0x61 <= b5 <= 0x66 || 0x41 <= b5 <= 0x46)
               && !(b5 == 0x39 && d4) && !((b5 | 0x20) == 0x66 && l4)))
        && (b6 >= 0xBA || (b6 == 0xB9 && d5)
           || ((0x30 <= b6 <= 0x39 || 0x61 <= b6 <= 0x66 || 0x41 <= b6 <= 0x46)
               && !(b6 == 0x39 && d5) && !((b6 | 0x20) == 0x66 && l5)))
        && (b7 >= 0xBA || (b7 == 0xB9 && d6)
           || ((0x30 <= b7 <= 0x39 || 0x61 <= b7 <= 0x66 || 0x41 <= b7 <= 0x46)
               && !(b7 == 0x39 && d6) && !((b7 | 0x20) == 0x66 && l6))))
  {
  }

  lemma MaskIs(x: bv64)
    ensures InvalidMask(x) ==
      (((x + 0x4646464646464646) & 0x8080808080808080)
       | (!((x | 0x8080808080808080) - 0x3030303030303030) & 0x8080808080808080))
      & ((((x | 0x2020202020202020) + 0x1919191919191919) & 0x8080808080808080)
         | (!((x | 0x2020202020202020 | 0x8080808080808080) - 0x6161616161616161) & 0x8080808080808080))
  {
  }

  lemma ChunkIs(b0: bv8, b1: bv8, b2: bv8, b3: bv8, b4: bv8, b5: bv8, b6: bv8, b7: bv8)
    ensures Chunk(b0, b1, b2, b3, b4, b5, b6, b7) ==
      (b0 as bv64) | ((b1 as bv64) << 8) | ((b2 as bv64) << 16) | ((b3 as bv64) << 24)
      | ((b4 as bv64) << 32) | ((b5 as bv64) << 40) | ((b6 as bv64) << 48) | ((b7 as bv64) << 56)
  {
  }

  lemma MaskBits(b0: bv8, b1: bv8, b2: bv8, b3: bv8, b4: bv8, b5: bv8, b6: bv8, b7: bv8,
                 k1: Carry, k2: Carry, k3: Carry, k4: Carry, k5: Carry, k6: Carry, k7: Carry)
    requires k1 == CarryBits(b0, NO_CARRY) && k2 == CarryBits(b1, k1) && k3 == CarryBits(b2, k2)
    requires k4 == CarryBits(b3, k3)
    requires k5 == CarryBits(b4, k4) && k6 == CarryBits(b5, k5) && k7 == CarryBits(b6, k6)
    ensures InvalidMask(Chunk(b0, b1, b2, b3, b4, b5, b6, b7)) == 0 <==>
      LaneBits(b0, NO_CARRY) && LaneBits(b1, k1) && LaneBits(b2, k2) && LaneBits(b3, k3)
      && LaneBits(b4, k4) && LaneBits(b5, k5) && LaneBits(b6, k6) && LaneBits(b7, k7)
  {
    hide *;
    MaskIs(Chunk(b0, b1, b2, b3, b4, b5, b6, b7));
    ChunkIs(b0, b1, b2, b3, b4, b5, b6, b7);
    MaskIdentity(b0, b1, b2, b3, b4, b5, b6, b7);
    NoCarryIs();
    CarryBitsIs(b0, NO_CARRY);
    CarryBitsIs(b1, k1);
    CarryBitsIs(b2, k2);
    CarryBitsIs(b3, k3);
    CarryBitsIs(b4, k4);
    CarryBitsIs(b5, k5);
    CarryBitsIs(b6, k6);
    LaneBitsIs(b0, NO_CARRY);
    LaneBitsIs(b1, k1);
    LaneBitsIs(b2, k2);
    LaneBitsIs(b3, k3);
    LaneBitsIs(b4, k4);
    LaneBitsIs(b5, k5);
    LaneBitsIs(b6, k6);
    LaneBitsIs(b7, k7);
  }

  lemma NoCarryIs()
    ensures NO_CARRY == Carry(false, false)
  {
  }

  lemma CarryBitsIs(c: bv8, k: Carry)
    ensures CarryBits(c, k).digit == (c >= 0xBA || (c == 0xB9 && k.digit))
    ensures CarryBits(c, k).letter == ((c | 0x20) >= 0xE7 || ((c | 0x20) == 0xE6 && k.letter))
  {
  }

  lemma LaneBitsIs(c: bv8, k: Carry)
    ensures LaneBits(c, k) == (c >= 0xBA || (c == 0xB9 && k.digit)
      || ((0x30 <= c <= 0x39 || 0x61 <= c <= 0x66 || 0x41 <= c <= 0x46)
          && !(c == 0x39 && k.digit) && !((c | 0x20) == 0x66 && k.letter)))
  {
  }

  function ChunkOf(s: seq<Byte>): bv64
    requires |s| == 8
  {
    Chunk(AsBits(s[0]), AsBits(s[1]), AsBits(s[2]), AsBits(s[3]),
          AsBits(s[4]), AsBits(s[5]), AsBits(s[6]), AsBits(s[7]))
  }

  lemma LanesStep(s: seq<Byte>, i: nat, k: Carry)
    requires i < |s|
    ensures LanesAccepted(s[i..], k) <==>
      LaneBits(AsBits(s[i]), k) && LanesAccepted(s[i + 1..], CarryBits(AsBits(s[i]), k))
  {
    assert s[i..][1..] == s[i + 1..];
    hide IsHexDigit, LaneBits, CarryBits, LaneAccepted, CarryOut;
    LaneIs(s[i], k);
    CarryIs(s[i], k);
  }

  lemma ChunkParts(s: seq<Byte>)
    requires |s| == 8
    ensures ChunkOf(s) == Chunk(AsBits(s[0]), AsBits(s[1]), AsBits(s[2]), AsBits(s[3]),
                                AsBits(s[4]), AsBits(s[5]), AsBits(s[6]), AsBits(s[7]))
    ensures s[0..] == s && forall k :: LanesAccepted(s[8..], k)
  {
  }

  /** For every eight bytes whatever, the mask is zero exactly when each lane is accepted, carries included. */
  lemma MaskByLanes(s: seq<Byte>)
    requires |s| == 8
    ensures InvalidMask(ChunkOf(s)) == 0 <==> LanesAccepted(s, NO_CARRY)
  {
    hide *;
    var b0, b1, b2, b3 := AsBits(s[0]), AsBits(s[1]), AsBits(s[2]), AsBits(s[3]);
    var b4, b5, b6, b7 := AsBits(s[4]), AsBits(s[5]), AsBits(s[6]), AsBits(s[7]);
    var k1 := CarryBits(b0, NO_CARRY);
    var k2 := CarryBits(b1, k1);
    var k3 := CarryBits(b2, k2);
    var k4 := CarryBits(b3, k3);
    var k5 := CarryBits(b4, k4);
    var k6 := CarryBits(b5, k5);
    var k7 := CarryBits(b6, k6);
    MaskBits(b0, b1, b2, b3, b4, b5, b6, b7, k1, k2, k3, k4, k5, k6, k7);
    ChunkParts(s);
    LanesStep(s, 0, NO_CARRY);
    LanesStep(s, 1, k1);
    LanesStep(s, 2, k2);
    LanesStep(s, 3, k3);
    LanesStep(s, 4, k4);
    LanesStep(s, 5, k5);
    LanesStep(s, 6, k6);
    LanesStep(s, 7, k7);
  }

  /** Without a byte from 0xBA up no lane carries, and the lanes are judged digit by digit. */
  lemma {:induction false} LanesWithoutCarry(s: seq<Byte>)
    requires forall i :: 0 <= i < |s| ==> s[i] < 0xBA
    ensures LanesAccepted(s, NO_CARRY) <==> AllHex(s)
  {
    if s != [] {
      LanesWithoutCarry(s[1..]);
      assert AllHex(s) <==> IsHexDigit(s[0]) && AllHex(s[1..]);
    }
  }

  predicate HasHighByte(s: seq<Byte>) {
    exists i :: 0 <= i < |s| && s[i] >= 0xBA
  }

  /** The word-wide test and the digit test agree on eight bytes, except exactly when a byte from
      0xBA up is among them and every lane, with the carries it causes, is accepted. */
  lemma MaskIsExactUnlessFooled(s: seq<Byte>)
    requires |s| == 8
    ensures (InvalidMask(ChunkOf(s)) == 0 <==> AllHex(s)) <==> !(HasHighByte(s) && LanesAccepted(s, NO_CARRY))
  {
    MaskByLanes(s);
    if !HasHighByte(s) {
      LanesWithoutCarry(s);
    } else {
      var i :| 0 <= i < |s| && s[i] >= 0xBA;
      assert !IsHexDigit(s[i]);
    }
  }

  // ----- hex2bin -----

  /** What hex2bin accepts: whole chunks by the mask, the rest digit by digit. */
  predicate Accepted(s: seq<Byte>) {
    if |s| < 8 then AllHex(s) else LanesAccepted(s[..8], NO_CARRY) && Accepted(s[8..])
  }

  /** Without a byte from 0xBA up, and so on every seven-bit string, that is the digit test on every character. */
  lemma {:induction false} AcceptedLowBytes(s: seq<Byte>)
    requires !HasHighByte(s)
    ensures Accepted(s) <==> AllHex(s)
    decreases |s|
  {
    if |s| >= 8 {
      assert forall i :: 0 <= i < 8 ==> s[..8][i] == s[i];
      assert forall i :: 0 <= i < |s| - 8 ==> s[8..][i] == s[8 + i];
      AcceptedLowBytes(s[8..]);
      LanesWithoutCarry(s[..8]);
      assert s == s[..8] + s[8..];
      AllHexAppend(s[..8], s[8..]);
    }
  }

  function WholeChunks(s: seq<Byte>): (n: nat)
    ensures 8 * n <= |s| < 8 * n + 8
  {
    |s| / 8
  }

  /** Chunk c of eight bytes, judged byte by byte with the carries between its lanes. */
  predicate ChunkAccepted(s: seq<Byte>, c: nat)
    requires c < WholeChunks(s)
  {
    LanesAccepted(s[8 * c..8 * c + 8], NO_CARRY)
  }

  /** Every whole chunk is accepted, and the rest are hex digits. */
  predicate ChunksAccepted(s: seq<Byte>) {
    (forall c :: 0 <= c < WholeChunks(s) ==> ChunkAccepted(s, c)) && AllHex(s[8 * WholeChunks(s)..])
  }

  lemma {:induction false} AcceptedByChunks(s: seq<Byte>)
    ensures Accepted(s) <==> ChunksAccepted(s)
    decreases |s|
  {
    hide AllHex, LanesAccepted;
    if |s| < 8 {
      assert s[0..] == s;
    } else {
      var rest := s[8..];
      AcceptedByChunks(rest);
      assert WholeChunks(s) == WholeChunks(rest) + 1;
      assert ChunkAccepted(s, 0) == LanesAccepted(s[..8], NO_CARRY);
      forall c | 0 <= c < WholeChunks(rest) ensures ChunkAccepted(s, c + 1) == ChunkAccepted(rest, c) {
        assert s[8 * (c + 1)..8 * (c + 1) + 8] == rest[8 * c..8 * c + 8];
      }
      assert s[8 * WholeChunks(s)..] == rest[8 * WholeChunks(rest)..];
      ShiftChunks(s, rest);
    }
  }

  lemma ShiftChunks(s: seq<Byte>, rest: seq<Byte>)
    requires WholeChunks(s) == WholeChunks(rest) + 1
    requires forall c :: 0 <= c < WholeChunks(rest) ==> ChunkAccepted(s, c + 1) == ChunkAccepted(rest, c)
    ensures (forall c :: 0 <= c < WholeChunks(s) ==> ChunkAccepted(s, c)) <==>
            ChunkAccepted(s, 0) && forall c :: 0 <= c < WholeChunks(rest) ==> ChunkAccepted(rest, c)
  {
    hide ChunkAccepted, WholeChunks;
    if ChunkAccepted(s, 0) && forall c :: 0 <= c < WholeChunks(rest) ==> ChunkAccepted(rest, c) {
      forall c | 0 <= c < WholeChunks(s) ensures ChunkAccepted(s, c) {
        if c > 0 {
          assert ChunkAccepted(s, c - 1 + 1) == ChunkAccepted(rest, c - 1);
        }
      }
    }
  }

  /** hex2bin's verdict is that of the digit test on every character, except exactly when a byte from 0xBA up is
      there, every whole chunk is accepted with its carries, and the rest are digits. */
  lemma AcceptedIsExactUnlessFooled(s: seq<Byte>)
    ensures (Accepted(s) <==> AllHex(s)) <==> !(HasHighByte(s) && ChunksAccepted(s))
  {
    hide ChunksAccepted;
    AcceptedByChunks(s);
    if HasHighByte(s) {
      var i :| 0 <= i < |s| && s[i] >= 0xBA;
      assert !IsHexDigit(s[i]);
    } else {
      AcceptedLowBytes(s);
    }
  }

  /** Such a string can be received: four times U+00BA, in UTF-8. */
  lemma HighBytesPass()
    ensures var s := [0xC2, 0xBA, 0xC2, 0xBA, 0xC2, 0xBA, 0xC2, 0xBA];
      Accepted(s) && !AllHex(s)
  {
    var s: seq<Byte> := [0xC2, 0xBA, 0xC2, 0xBA, 0xC2, 0xBA, 0xC2, 0xBA];
    assert !IsHexDigit(s[0]);
    assert s[..8] == s && s[8..] == [];
    CarriesOn(s, NO_CARRY);
  }

  lemma {:induction false} CarriesOn(s: seq<Byte>, k: Carry)
    requires forall i :: 0 <= i < |s| ==> s[i] >= 0xBA
    ensures LanesAccepted(s, k)
  {
    if s != [] {
      CarriesOn(s[1..], CarryOut(s[0], k));
    }
  }

  lemma AllHexAppend(a: seq<Byte>, b: seq<Byte>)
    ensures AllHex(a + b) <==> AllHex(a) && AllHex(b)
  {
    if AllHex(a + b) {
      assert forall i :: 0 <= i < |a| ==> (a + b)[i] == a[i];
      assert forall i :: 0 <= i < |b| ==> (a + b)[|a| + i] == b[i];
    }
  }

  lemma PackBits0(b0: bv8, b1: bv8, b2: bv8, b3: bv8, b4: bv8, b5: bv8, b6: bv8, b7: bv8)
    ensures PackWord(Chunk(b0, b1, b2, b3, b4, b5, b6, b7)) & 0xff == ((Nibble(b0) << 4) | Nibble(b1)) as bv64
  {
  }

  lemma PackBits1(b0: bv8, b1: bv8, b2: bv8, b3: bv8, b4: bv8, b5: bv8, b6: bv8, b7: bv8)
    ensures (PackWord(Chunk(b0, b1, b2, b3, b4, b5, b6, b7)) >> 16) & 0xff == ((Nibble(b2) << 4) | Nibble(b3)) as bv64
  {
  }

  lemma PackBits2(b0: bv8, b1: bv8, b2: bv8, b3: bv8, b4: bv8, b5: bv8, b6: bv8, b7: bv8)
    ensures (PackWord(Chunk(b0, b1, b2, b3, b4, b5, b6, b7)) >> 32) & 0xff == ((Nibble(b4) << 4) | Nibble(b5)) as bv64
  {
  }

  lemma PackBits3(b0: bv8, b1: bv8, b2: bv8, b3: bv8, b4: bv8, b5: bv8, b6: bv8, b7: bv8)
    ensures (PackWord(Chunk(b0, b1, b2, b3, b4, b5, b6, b7)) >> 48) & 0xff == ((Nibble(b6) << 4) | Nibble(b7)) as bv64
  {
  }

  /** (hex_decode_nibble_branchless(hi) << 4) | hex_decode_nibble_branchless(lo) */
  function ByteOfPair(hi: bv8, lo: bv8): Byte {
    ((Nibble(hi) << 4) | Nibble(lo)) as int
  }

  lemma NibbleIs(c: Byte)
    requires IsHexDigit(c)
    ensures Nibble(AsBits(c)) < 16 && Nibble(AsBits(c)) as int == HexValue(c)
  {
  }

  lemma JoinNibbles(x: bv8, y: bv8)
    requires x < 16 && y < 16
    ensures ((x << 4) | y) as int == 16 * (x as int) + (y as int)
  {
  }

  lemma PairIs(hi: Byte, lo: Byte)
    requires IsHexDigit(hi) && IsHexDigit(lo)
    ensures ByteOfPair(AsBits(hi), AsBits(lo)) == 16 * HexValue(hi) + HexValue(lo)
  {
    hide Nibble, HexValue;
    NibbleIs(hi);
    NibbleIs(lo);
    JoinNibbles(Nibble(AsBits(hi)), Nibble(AsBits(lo)));
  }

  lemma LowByteOf(x: bv64, y: bv8)
    requires x & 0xff == y as bv64
    ensures LowByte(x) == y as int
  {
  }

  lemma LowBytePair(x: bv64, hi: bv8, lo: bv8)
    requires x & 0xff == ((Nibble(hi) << 4) | Nibble(lo)) as bv64
    ensures LowByte(x) == ByteOfPair(hi, lo)
  {
    hide Nibble;
    LowByteOf(x, (Nibble(hi) << 4) | Nibble(lo));
  }

  lemma PackByte0(b0: bv8, b1: bv8, b2: bv8, b3: bv8, b4: bv8, b5: bv8, b6: bv8, b7: bv8)
    ensures ByteAt(PackWord(Chunk(b0, b1, b2, b3, b4, b5, b6, b7)), 0) == ByteOfPair(b0, b1)
  {
    hide PackWord, Chunk, Nibble, LowByte, ByteOfPair;
    PackBits0(b0, b1, b2, b3, b4, b5, b6, b7);
    LowBytePair(PackWord(Chunk(b0, b1, b2, b3, b4, b5, b6, b7)), b0, b1);
  }

  lemma PackByte1(b0: bv8, b1: bv8, b2: bv8, b3: bv8, b4: bv8, b5: bv8, b6: bv8, b7: bv8)
    ensures ByteAt(PackWord(Chunk(b0, b1, b2, b3, b4, b5, b6, b7)), 1) == ByteOfPair(b2, b3)
  {
    hide PackWord, Chunk, Nibble, LowByte, ByteOfPair;
    PackBits1(b0, b1, b2, b3, b4, b5, b6, b7);
    LowBytePair(PackWord(Chunk(b0, b1, b2, b3, b4, b5, b6, b7)) >> 16, b2, b3);
  }

  lemma PackByte2(b0: bv8, b1: bv8, b2: bv8, b3: bv8, b4: bv8, b5: bv8, b6: bv8, b7: bv8)
    ensures ByteAt(PackWord(Chunk(b0, b1, b2, b3, b4, b5, b6, b7)), 2) == ByteOfPair(b4, b5)
  {
    hide PackWord, Chunk, Nibble, LowByte, ByteOfPair;
    PackBits2(b0, b1, b2, b3, b4, b5, b6, b7);
    LowBytePair(PackWord(Chunk(b0, b1, b2, b3, b4, b5, b6, b7)) >> 32, b4, b5);
  }

  lemma PackByte3(b0: bv8, b1: bv8, b2: bv8, b3: bv8, b4: bv8, b5: bv8, b6: bv8, b7: bv8)
    ensures ByteAt(PackWord(Chunk(b0, b1, b2, b3, b4, b5, b6, b7)), 3) == ByteOfPair(b6, b7)
  {
    hide PackWord, Chunk, Nibble, LowByte, ByteOfPair;
    PackBits3(b0, b1, b2, b3, b4, b5, b6, b7);
    LowBytePair(PackWord(Chunk(b0, b1, b2, b3, b4, b5, b6, b7)) >> 48, b6, b7);
  }

  /** The four bytes of a decoded chunk, lane by lane, with nothing spilling between lanes. */
  function ChunkBytes(s: seq<Byte>): (b: seq<Byte>)
    requires |s| == 8
    ensures |b| == 4
  {
    var pack := PackWord(ChunkOf(s));
    [ByteAt(pack, 0), ByteAt(pack, 1), ByteAt(pack, 2), ByteAt(pack, 3)]
  }

  lemma ChunkBytesAre(s: seq<Byte>)
    requires |s| == 8
    ensures ChunkBytes(s) ==
      [ByteOfPair(AsBits(s[0]), AsBits(s[1])), ByteOfPair(AsBits(s[2]), AsBits(s[3])),
       ByteOfPair(AsBits(s[4]), AsBits(s[5])), ByteOfPair(AsBits(s[6]), AsBits(s[7]))]
  {
    hide Chunk, PackWord, ByteAt, ByteOfPair, AsBits;
    var b0, b1, b2, b3 := AsBits(s[0]), AsBits(s[1]), AsBits(s[2]), AsBits(s[3]);
    var b4, b5, b6, b7 := AsBits(s[4]), AsBits(s[5]), AsBits(s[6]), AsBits(s[7]);
    PackByte0(b0, b1, b2, b3, b4, b5, b6, b7);
    PackByte1(b0, b1, b2, b3, b4, b5, b6, b7);
    PackByte2(b0, b1, b2, b3, b4, b5, b6, b7);
    PackByte3(b0, b1, b2, b3, b4, b5, b6, b7);
  }

  /** The byte that each pair of characters decodes to, digits or not. */
  function DecodePairs(s: seq<Byte>): (b: seq<Byte>)
    requires |s| % 2 == 0
    ensures |b| == |s| / 2
  {
    if s == [] then []
    else DecodePairs(s[..|s| - 2]) + [ByteOfPair(AsBits(s[|s| - 2]), AsBits(s[|s| - 1]))]
  }

  lemma PairsAppend(s: seq<Byte>, hi: Byte, lo: Byte)
    requires |s| % 2 == 0
    ensures |s + [hi, lo]| % 2 == 0
    ensures DecodePairs(s + [hi, lo]) == DecodePairs(s) + [ByteOfPair(AsBits(hi), AsBits(lo))]
  {
    hide ByteOfPair, AsBits;
    assert (s + [hi, lo])[..|s|] == s;
  }

  /** On hex digits that is what the string writes. */
  lemma {:induction false} PairsOfDigits(s: seq<Byte>)
    requires AllHex(s) && |s| % 2 == 0
    ensures DecodePairs(s) == Decode(s)
  {
    hide ByteOfPair, AsBits, HexValue, IsHexDigit;
    if s != [] {
      PairsOfDigits(s[..|s| - 2]);
      PairIs(s[|s| - 2], s[|s| - 1]);
    }
  }

  /** The decoded word of eight characters holds the four bytes of their pairs. */
  lemma ChunkDecodes(done: seq<Byte>, s: seq<Byte>)
    requires |s| == 8 && |done| % 2 == 0
    ensures |done + s| % 2 == 0
    ensures DecodePairs(done + s) == DecodePairs(done) + ChunkBytes(s)
  {
    hide ChunkBytes, ByteOfPair, AsBits, DecodePairs;
    ChunkBytesAre(s);
    PairsAppend(done, s[0], s[1]);
    PairsAppend(done + [s[0], s[1]], s[2], s[3]);
    PairsAppend(done + [s[0], s[1]] + [s[2], s[3]], s[4], s[5]);
    PairsAppend(done + [s[0], s[1]] + [s[2], s[3]] + [s[4], s[5]], s[6], s[7]);
    assert done + s == done + [s[0], s[1]] + [s[2], s[3]] + [s[4], s[5]] + [s[6], s[7]];
  }

  /** hex2bin: the verdict on any string, and the bytes that any accepted string leaves behind. */
  method Hex2Bin(p: array<Byte>, hexstr: seq<Byte>, len: nat) returns (ok: bool)
    requires len <= p.Length
    modifies p
    ensures ok <==> |hexstr| % 2 == 0 && |hexstr| / 2 <= len && Accepted(hexstr)
    ensures ok ==> p[..len] == DecodePairs(hexstr) + Zeros(len - |hexstr| / 2)
    ensures p[len..] == old(p[len..])
  {
    hide InvalidMask, ChunkOf, ChunkBytes, PackWord, DecodesTo, DecodePairs, AllHex, LanesAccepted;
    if |hexstr| % 2 != 0 {
      return false;
    }
    var binLen := |hexstr| / 2;
    if binLen > len {
      return false;
    }
    ClearBytes(p, 0, len);
    var i, j := 0, 0;
    ghost var done: seq<Byte> := [];
    DecodesToNothing(hexstr[..0]);
    while i + 8 <= |hexstr|
      invariant i == 2 * j && i <= |hexstr| && |done| == j
      invariant Accepted(hexstr) <==> Accepted(hexstr[i..])
      invariant DecodesTo(hexstr[..i], done)
      invariant p[..] == done + Zeros(len - j) + old(p[len..])
    {
      var s := hexstr[i..i + 8];
      MaskByLanes(s);
      assert hexstr[i..][..8] == s && hexstr[i..][8..] == hexstr[i + 8..];
      if InvalidMask(ChunkOf(s)) != 0 {
        return false;
      }
      ChunkStep(hexstr, i, done);
      OverZeros(p[..], done, len - j, p[len..], ChunkBytes(s));
      StoreFour(p, j, s);
      done := done + ChunkBytes(s);
      i := i + 8;
      j := j + 4;
    }
    ok := Tail2Bin(p, hexstr, len, i, j, done);
  }

  predicate DecodesTo(s: seq<Byte>, b: seq<Byte>) {
    |s| % 2 == 0 && DecodePairs(s) == b
  }

  /** Writing over the zeros that follow what is done. */
  lemma OverZeros(p: seq<Byte>, done: seq<Byte>, n: nat, rest: seq<Byte>, bytes: seq<Byte>)
    requires p == done + Zeros(n) + rest && |bytes| <= n
    ensures p[..|done|] + bytes + p[|done| + |bytes|..] == done + bytes + Zeros(n - |bytes|) + rest
  {
  }

  lemma DecodesToNothing(s: seq<Byte>)
    requires s == []
    ensures DecodesTo(s, [])
  {
  }

  lemma ChunkStep(hexstr: seq<Byte>, i: nat, done: seq<Byte>)
    requires i + 8 <= |hexstr| && DecodesTo(hexstr[..i], done)
    ensures DecodesTo(hexstr[..i + 8], done + ChunkBytes(hexstr[i..i + 8]))
  {
    hide ChunkBytes, DecodePairs;
    var s := hexstr[i..i + 8];
    ChunkDecodes(hexstr[..i], s);
    assert hexstr[..i] + s == hexstr[..i + 8];
  }

  /** p[j] to p[j + 3] from the packed word of eight characters. */
  method StoreFour(p: array<Byte>, j: nat, s: seq<Byte>)
    requires j + 4 <= p.Length && |s| == 8
    modifies p
    ensures p[..] == old(p[..j]) + ChunkBytes(s) + old(p[j + 4..])
  {
    hide PackWord, ChunkOf, ByteAt;
    var pack := PackWord(ChunkOf(s));
    p[j] := ByteAt(pack, 0);
    p[j + 1] := ByteAt(pack, 1);
    p[j + 2] := ByteAt(pack, 2);
    p[j + 3] := ByteAt(pack, 3);
  }

  lemma PairStep(hexstr: seq<Byte>, i: nat, done: seq<Byte>)
    requires i + 2 <= |hexstr| && DecodesTo(hexstr[..i], done)
    ensures DecodesTo(hexstr[..i + 2], done + [ByteOfPair(AsBits(hexstr[i]), AsBits(hexstr[i + 1]))])
  {
    hide ByteOfPair, AsBits, DecodePairs;
    PairsAppend(hexstr[..i], hexstr[i], hexstr[i + 1]);
    assert hexstr[..i] + [hexstr[i], hexstr[i + 1]] == hexstr[..i + 2];
  }

  lemma Decoded(s: seq<Byte>, b: seq<Byte>)
    requires DecodesTo(s, b)
    ensures |s| % 2 == 0 && DecodePairs(s) == b
  {
  }

  /** The scalar tail of hex2bin. */
  method Tail2Bin(p: array<Byte>, hexstr: seq<Byte>, len: nat, i0: nat, j0: nat, ghost done0: seq<Byte>)
    returns (ok: bool)
    requires len <= p.Length && |hexstr| % 2 == 0 && |hexstr| / 2 <= len
    requires i0 == 2 * j0 && i0 <= |hexstr| && |done0| == j0
    requires DecodesTo(hexstr[..i0], done0)
    requires p[..] == done0 + Zeros(len - j0) + p[len..]
    modifies p
    ensures ok <==> AllHex(hexstr[i0..])
    ensures ok ==> p[..len] == DecodePairs(hexstr) + Zeros(len - |hexstr| / 2)
    ensures p[len..] == old(p[len..])
  {
    hide IsHexDigit, HexValue, ByteOfPair, AsBits, DecodesTo, DecodePairs;
    var i, j := i0, j0;
    ghost var done := done0;
    while i < |hexstr|
      invariant i == 2 * j && i0 <= i <= |hexstr| && |done| == j
      invariant forall k :: i0 <= k < i ==> IsHexDigit(hexstr[k])
      invariant DecodesTo(hexstr[..i], done)
      invariant p[..] == done + Zeros(len - j) + old(p[len..])
    {
      var hi, lo := hexstr[i], hexstr[i + 1];
      if !IsHexDigit(hi) || !IsHexDigit(lo) {
        assert hexstr[i0..][i - i0] == hi && hexstr[i0..][i + 1 - i0] == lo;
        return false;
      }
      PairStep(hexstr, i, done);
      var x := ByteOfPair(AsBits(hi), AsBits(lo));
      OverZeros(p[..], done, len - j, p[len..], [x]);
      Memcpy(p, j, [x]);
      done := done + [x];
      i := i + 2;
      j := j + 1;
    }
    assert hexstr[..i] == hexstr;
    Decoded(hexstr, done);
    return true;
  }
}
