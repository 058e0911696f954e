/** The padding of FIPS 180-4 section 5.1.1, written over bits, and the fold of a
    compression function over 64-byte blocks. Nothing here looks at the code. */
module FipsPadding {
  import opened Bytes

  /** A hash that works on 64-byte blocks: its compression function, its initial
      chaining value and the number of output words. */
  datatype Algorithm = Algorithm(compress: (seq<Byte>, seq<U32>) -> seq<U32>, iv: seq<U32>)

  /** The compression function keeps the width of the chaining value. */
  ghost predicate KeepsWidth(alg: Algorithm) {
    forall block: seq<Byte>, v: seq<U32> :: |v| == |alg.iv| ==> |alg.compress(block, v)| == |alg.iv|
  }

  /** Chaining value after every whole block of the bytes, in order. */
  ghost function Absorb(alg: Algorithm, v: seq<U32>, bytes: seq<Byte>): seq<U32>
    decreases |bytes|
  {
    if |bytes| < 64 then v else Absorb(alg, alg.compress(bytes[..64], v), bytes[64..])
  }

  /** The bytes after the last whole block. */
  ghost function Tail(bytes: seq<Byte>): (t: seq<Byte>)
    ensures |t| < 64
    decreases |bytes|
  {
    if |bytes| < 64 then bytes else Tail(bytes[64..])
  }

  lemma {:induction false} TailLength(bytes: seq<Byte>)
    ensures |Tail(bytes)| == |bytes| % 64
    decreases |bytes|
  {
    if |bytes| >= 64 {
      TailLength(bytes[64..]);
    }
  }

  /** Splitting a message anywhere: carry on from the first part's chaining value and tail. */
  lemma {:induction false} AbsorbAppend(alg: Algorithm, v: seq<U32>, a: seq<Byte>, b: seq<Byte>)
    ensures Absorb(alg, v, a + b) == Absorb(alg, Absorb(alg, v, a), Tail(a) + b)
    ensures Tail(a + b) == Tail(Tail(a) + b)
    decreases |a|
  {
    if |a| >= 64 {
      assert (a + b)[..64] == a[..64];
      assert (a + b)[64..] == a[64..] + b;
      AbsorbAppend(alg, alg.compress(a[..64], v), a[64..], b);
    }
  }

  lemma {:induction false} AbsorbWidth(alg: Algorithm, v: seq<U32>, bytes: seq<Byte>)
    requires KeepsWidth(alg) && |v| == |alg.iv|
    ensures |Absorb(alg, v, bytes)| == |alg.iv|
    decreases |bytes|
  {
    if |bytes| >= 64 {
      AbsorbWidth(alg, alg.compress(bytes[..64], v), bytes[64..]);
    }
  }

  // ----- bits -----

  function Bit(b: bool): int {
    if b then 1 else 0
  }

  function Pow2(n: nat): (p: nat)
    ensures p > 0
  {
    if n == 0 then 1 else 2 * Pow2(n - 1)
  }

  /** The low w bits of x, most significant first. */
  function NumberBits(x: nat, w: nat): (s: seq<bool>)
    ensures |s| == w
  {
    if w == 0 then [] else NumberBits(x / 2, w - 1) + [x % 2 == 1]
  }

  /** The number a bit string writes in base two. */
  function BitsValue(s: seq<bool>): (x: nat)
    ensures x < Pow2(|s|)
  {
    if s == [] then 0 else 2 * BitsValue(s[..|s| - 1]) + Bit(s[|s| - 1])
  }

  function ByteBits(b: Byte): (s: seq<bool>)
    ensures |s| == 8
  {
    NumberBits(b, 8)
  }

  function BitsOf(bytes: seq<Byte>): (s: seq<bool>)
    ensures |s| == 8 * |bytes|
  {
    if bytes == [] then [] else ByteBits(bytes[0]) + BitsOf(bytes[1..])
  }

  function PackByte(s: seq<bool>): Byte
    requires |s| == 8
  {
    assert Pow2(8) == 256 by { PowersOfTwo(); }
    BitsValue(s)
  }

  /** Bits to bytes, the first bit being the most significant one of the first byte. */
  function Pack(bits: seq<bool>): (s: seq<Byte>)
    requires |bits| % 8 == 0
    ensures 8 * |s| == |bits|
  {
    if bits == [] then [] else [PackByte(bits[..8])] + Pack(bits[8..])
  }

  function ZeroBits(n: nat): (s: seq<bool>)
    ensures |s| == n
  {
    seq(n, _ => false)
  }

  /** l + 1 + k is 448 modulo 512. */
  predicate Fills(l: nat, k: nat) {
    (l + 1 + k) % 512 == 448
  }

  /** The smallest k that FIPS 180-4 section 5.1.1 asks for. */
  function ZeroBitCount(l: nat): (k: nat)
    ensures Fills(l, k) && forall j: nat :: j < k ==> !Fills(l, j)
  {
    (447 - l) % 512
  }

  /** FIPS 180-4 section 5.1.1. The length field holds the length modulo 2^64. */
  function Padded(m: seq<bool>): (p: seq<bool>)
    ensures |p| % 512 == 0 && |p| % 8 == 0
  {
    m + [true] + ZeroBits(ZeroBitCount(|m|)) + NumberBits(|m|, 64)
  }

  /** The digest of a bit string: compress every padded block in order. */
  ghost function Digest(alg: Algorithm, m: seq<bool>): seq<U32> {
    Absorb(alg, alg.iv, Pack(Padded(m)))
  }

  ghost function DigestBytes(alg: Algorithm, m: seq<Byte>): seq<Byte> {
    Be32s(Digest(alg, BitsOf(m)))
  }

  // ----- packing lemmas -----

  lemma PowersOfTwo()
    ensures Pow2(0) == 1 && Pow2(1) == 2 && Pow2(2) == 4 && Pow2(3) == 8 && Pow2(4) == 16
    ensures Pow2(5) == 32 && Pow2(6) == 64 && Pow2(7) == 128 && Pow2(8) == 256
  {
    assert Pow2(4) == 16;
  }

  /** x shifted right by v bits. */
  function Halve(x: nat, v: nat): nat {
    if v == 0 then x else Halve(x / 2, v - 1)
  }

  lemma HalveByte(x: nat)
    ensures Halve(x, 8) == x / 256
  {
    assert Halve(x, 8) == Halve(x / 2, 7) == Halve(x / 2 / 2, 6) == Halve(x / 2 / 2 / 2, 5)
        == Halve(x / 2 / 2 / 2 / 2, 4);
    assert x / 2 / 2 / 2 / 2 == x / 16;
    assert Halve(x / 16, 4) == Halve(x / 16 / 2, 3) == Halve(x / 16 / 2 / 2, 2) == Halve(x / 16 / 2 / 2 / 2, 1)
        == x / 16 / 2 / 2 / 2 / 2;
  }

  lemma DoublePow(v: nat, k: nat)
    ensures Pow2(v + 1) * k == 2 * (Pow2(v) * k)
  {
    var p := Pow2(v);
    assert Pow2(v + 1) == 2 * p;
    assert 2 * p * k == 2 * (p * k);
  }

  lemma {:induction false} ValueOfBits(x: nat, w: nat)
    ensures BitsValue(NumberBits(x, w)) + Pow2(w) * Halve(x, w) == x
  {
    if w > 0 {
      var bits := NumberBits(x, w);
      assert bits[..w - 1] == NumberBits(x / 2, w - 1);
      assert BitsValue(bits) == 2 * BitsValue(NumberBits(x / 2, w - 1)) + x % 2;
      ValueOfBits(x / 2, w - 1);
      DoublePow(w - 1, Halve(x / 2, w - 1));
    }
  }

  lemma {:induction false} SplitBits(x: nat, w: nat, v: nat)
    ensures NumberBits(x, w + v) == NumberBits(Halve(x, v), w) + NumberBits(x, v)
  {
    if v > 0 {
      SplitBits(x / 2, w, v - 1);
    }
  }

  lemma PackByteBits(x: nat)
    ensures PackByte(NumberBits(x, 8)) == x % 256
  {
    PowersOfTwo();
    ValueOfBits(x, 8);
    HalveByte(x);
  }

  lemma PackOneByte(x: nat)
    ensures Pack(NumberBits(x, 8)) == [x % 256]
  {
    PackByteBits(x);
    assert NumberBits(x, 8)[..8] == NumberBits(x, 8);
  }

  lemma {:induction false} PackAppend(a: seq<bool>, b: seq<bool>)
    requires |a| % 8 == 0 && |b| % 8 == 0
    ensures Pack(a + b) == Pack(a) + Pack(b)
  {
    if a == [] {
      assert a + b == b;
    } else {
      assert (a + b)[..8] == a[..8];
      assert (a + b)[8..] == a[8..] + b;
      PackAppend(a[8..], b);
    }
  }

  lemma {:induction false} PackBitsOf(m: seq<Byte>)
    ensures Pack(BitsOf(m)) == m
  {
    if m != [] {
      PackBitsOf(m[1..]);
      PackByteBits(m[0]);
      assert BitsOf(m)[..8] == ByteBits(m[0]);
      assert BitsOf(m)[8..] == BitsOf(m[1..]);
    }
  }

  lemma {:induction false} ZeroValue(n: nat)
    ensures BitsValue(ZeroBits(n)) == 0
  {
    if n > 0 {
      assert ZeroBits(n)[..n - 1] == ZeroBits(n - 1);
      ZeroValue(n - 1);
    }
  }

  lemma {:induction false} PackZeros(n: nat)
    ensures Pack(ZeroBits(8 * n)) == Zeros(n)
  {
    if n > 0 {
      ZeroValue(8);
      assert ZeroBits(8 * n)[..8] == ZeroBits(8);
      PackZeros(n - 1);
      assert ZeroBits(8 * n)[8..] == ZeroBits(8 * (n - 1));
      assert Zeros(n) == [0] + Zeros(n - 1);
    }
  }

  lemma {:induction false} PackNumber(x: nat, k: nat)
    ensures Pack(NumberBits(x, 8 * k)) == NumberBytes(x, k)
  {
    if k > 0 {
      SplitBits(x, 8 * (k - 1), 8);
      HalveByte(x);
      PackNumber(x / 256, k - 1);
      PackAppend(NumberBits(x / 256, 8 * (k - 1)), NumberBits(x, 8));
      PackOneByte(x);
    }
  }
}
