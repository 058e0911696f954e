/** algo/sha/md_helper.c as sha1.c and sph_sha2.c instantiate it: 64-byte blocks,
    big-endian 32-bit words, a 64-bit byte counter, 0x80 padding. The round function
    is whatever the algorithm record supplies. */
module MerkleDamgard {
  import opened Bytes
  import opened FipsPadding
  import opened PaddingByte

  const BLEN := 64
  const MAXPAD := 56

  // ----- the padding -----

  /** Zero bytes between the pad byte and the length field. */
  function ZeroByteCount(len: nat): nat {
    (55 - len) % 64
  }

  lemma ZeroCountInBytes(len: nat, n: nat)
    requires n <= 7
    ensures ZeroBitCount(8 * len + n) == 7 - n + 8 * ZeroByteCount(len)
  {
    var k, zc := ZeroBitCount(8 * len + n), ZeroByteCount(len);
    var q := (55 - len) / 64;
    assert 55 - len == 64 * q + zc;
    assert 447 - 8 * len - n == 512 * q + (7 - n + 8 * zc);
  }

  /** The padding in bytes, as addbits_and_close lays it out. */
  function PaddedBytes(m: seq<Byte>, ub: bv32, n: nat): (p: seq<Byte>)
    requires n <= 7
    ensures |p| % 64 == 0
  {
    m + [PadByte(ub, n)] + Zeros(ZeroByteCount(|m|)) + NumberBytes(8 * |m| + n, 8)
  }

  /** It is the padding of FIPS 180-4 section 5.1.1, for every message and every number of extra bits. */
  lemma PaddingIsFips(m: seq<Byte>, ub: bv32, n: nat)
    requires n <= 7
    ensures Pack(Padded(BitsOf(m) + ExtraBits(ub, n))) == PaddedBytes(m, ub, n)
  {
    hide Pack, BitsOf, ExtraBits, PadByte, NumberBits, NumberBytes, ZeroBits, Zeros, ZeroBitCount, ZeroByteCount;
    var zc := ZeroByteCount(|m|);
    var one := ExtraBits(ub, n) + [true] + ZeroBits(7 - n);
    var length := NumberBits(8 * |m| + n, 64);
    ZeroCountInBytes(|m|, n);
    Regroup(BitsOf(m), ExtraBits(ub, n), 7 - n, 8 * zc, length);
    assert Padded(BitsOf(m) + ExtraBits(ub, n)) == BitsOf(m) + one + ZeroBits(8 * zc) + length;
    PackParts(m, one, zc, 8 * |m| + n);
    PadByteBits(ub, n);
  }

  lemma PackParts(m: seq<Byte>, one: seq<bool>, zc: nat, len: nat)
    requires |one| == 8
    ensures |BitsOf(m) + one + ZeroBits(8 * zc) + NumberBits(len, 64)| % 8 == 0
    ensures Pack(BitsOf(m) + one + ZeroBits(8 * zc) + NumberBits(len, 64)) ==
            m + Pack(one) + Zeros(zc) + NumberBytes(len, 8)
  {
    PackFour(BitsOf(m), one, ZeroBits(8 * zc), NumberBits(len, 64));
    PackBitsOf(m);
    PackZeros(zc);
    PackNumber(len, 8);
  }

  lemma Regroup(a: seq<bool>, b: seq<bool>, i: nat, j: nat, c: seq<bool>)
    ensures a + b + [true] + ZeroBits(i + j) + c == a + (b + [true] + ZeroBits(i)) + ZeroBits(j) + c
  {
    assert ZeroBits(i + j) == ZeroBits(i) + ZeroBits(j);
  }

  lemma PackFour(a: seq<bool>, b: seq<bool>, c: seq<bool>, d: seq<bool>)
    requires |a| % 8 == 0 && |b| % 8 == 0 && |c| % 8 == 0 && |d| % 8 == 0
    ensures |a + b + c + d| % 8 == 0
    ensures Pack(a + b + c + d) == Pack(a) + Pack(b) + Pack(c) + Pack(d)
  {
    PackTwo(a, b);
    PackTwo(a + b, c);
    PackTwo(a + b + c, d);
  }

  lemma PackTwo(a: seq<bool>, b: seq<bool>)
    requires |a| % 8 == 0 && |b| % 8 == 0
    ensures |a + b| % 8 == 0
    ensures Pack(a + b) == Pack(a) + Pack(b)
  {
    PackAppend(a, b);
  }

  /** The length field the code writes: (count << 3) + n in 64 bits, most significant byte first. */
  lemma {:induction false} LengthField(x: nat, y: nat, k: nat, j: nat)
    requires x == y + Pow2(8 * k) * j
    ensures NumberBytes(x, k) == NumberBytes(y, k)
  {
    if k > 0 {
      var p := Pow2(8 * (k - 1)) * j;
      EightDoublings(8 * (k - 1), j);
      LengthField(x / 256, y / 256, k - 1, j);
    }
  }

  lemma EightDoublings(v: nat, j: nat)
    ensures Pow2(v + 8) * j == 256 * (Pow2(v) * j)
  {
    assert Pow2(v + 8) == 2 * Pow2(v + 7) == 4 * Pow2(v + 6) == 8 * Pow2(v + 5) == 16 * Pow2(v + 4);
    assert Pow2(v + 4) == 2 * Pow2(v + 3) == 4 * Pow2(v + 2) == 8 * Pow2(v + 1) == 16 * Pow2(v);
    assert Pow2(v + 8) == 256 * Pow2(v);
  }

  lemma PowerOfEightBytes()
    ensures Pow2(64) == MOD64
  {
    PowersOfTwo();
    EightDoublings(8, 1);
    EightDoublings(16, 1);
    EightDoublings(24, 1);
    EightDoublings(32, 1);
    EightDoublings(40, 1);
    EightDoublings(48, 1);
    EightDoublings(56, 1);
  }

  /** The 64-bit length field is right for messages of any length, modulo 2^64. */
  lemma LengthFieldWraps(len: nat, n: nat)
    requires n <= 7
    ensures NumberBytes(len % MOD64 * 8 % MOD64 + n, 8) == NumberBytes(8 * len + n, 8)
  {
    var y := len % MOD64 * 8 % MOD64;
    var j := 8 * (len / MOD64) + len % MOD64 * 8 / MOD64;
    PowerOfEightBytes();
    assert 8 * len + n == (y + n) + MOD64 * j;
    LengthField(8 * len + n, y + n, 8, j);
  }

  /** The one or two last blocks, from the tail of the message. */
  lemma LastBlocks(alg: Algorithm, m: seq<Byte>, ub: bv32, n: nat)
    requires n <= 7
    ensures var t, v, length := Tail(m), Absorb(alg, alg.iv, m), NumberBytes(8 * |m| + n, 8);
      Absorb(alg, alg.iv, PaddedBytes(m, ub, n)) ==
      if |t| + 1 > MAXPAD then
        alg.compress(Zeros(MAXPAD) + length, alg.compress(t + [PadByte(ub, n)] + Zeros(BLEN - |t| - 1), v))
      else
        alg.compress(t + [PadByte(ub, n)] + Zeros(MAXPAD - |t| - 1) + length, v)
  {
    var t, v, length := Tail(m), Absorb(alg, alg.iv, m), NumberBytes(8 * |m| + n, 8);
    var zc := ZeroByteCount(|m|);
    var pad := [PadByte(ub, n)];
    assert PaddedBytes(m, ub, n) == m + (pad + Zeros(zc) + length);
    AbsorbAppend(alg, alg.iv, m, pad + Zeros(zc) + length);
    TailLength(m);
    if |t| + 1 > MAXPAD {
      ZeroCountLong(|m|);
      SplitZeros(t, pad, BLEN - |t| - 1, MAXPAD, length);
      TwoBlocks(alg, v, t + pad + Zeros(BLEN - |t| - 1), Zeros(MAXPAD) + length);
    } else {
      ZeroCountShort(|m|);
      SplitZeros(t, pad, zc, 0, length);
      TwoBlocks(alg, v, t + pad + Zeros(zc) + length, []);
    }
  }

  lemma DigestOfPadded(alg: Algorithm, m: seq<Byte>, ub: bv32, n: nat)
    requires n <= 7
    ensures Digest(alg, BitsOf(m) + ExtraBits(ub, n)) == Absorb(alg, alg.iv, PaddedBytes(m, ub, n))
  {
    hide Absorb, PaddedBytes, BitsOf, ExtraBits, Padded, Pack;
    PaddingIsFips(m, ub, n);
  }

  lemma SplitZeros(t: seq<Byte>, pad: seq<Byte>, i: nat, j: nat, length: seq<Byte>)
    ensures t + (pad + Zeros(i + j) + length) == t + pad + Zeros(i) + (Zeros(j) + length)
    ensures j == 0 ==> t + (pad + Zeros(i + j) + length) == t + pad + Zeros(i) + length + []
  {
    assert Zeros(i + j) == Zeros(i) + Zeros(j);
  }

  lemma ZeroCountLong(len: nat)
    requires len % 64 >= 56
    ensures ZeroByteCount(len) == 63 - len % 64 + 56
  {
  }

  lemma ZeroCountShort(len: nat)
    requires len % 64 < 56
    ensures ZeroByteCount(len) == 55 - len % 64
  {
  }

  lemma TwoBlocks(alg: Algorithm, v: seq<U32>, first: seq<Byte>, second: seq<Byte>)
    requires |first| == BLEN && (|second| == BLEN || second == [])
    ensures Absorb(alg, v, first + second) ==
            if second == [] then alg.compress(first, v) else alg.compress(second, alg.compress(first, v))
  {
    assert (first + second)[..64] == first && (first + second)[64..] == second;
    var v' := alg.compress(first, v);
    assert Absorb(alg, v, first + second) == Absorb(alg, v', second);
    if second != [] {
      assert second[..64] == second && second[64..] == [];
      assert Absorb(alg, v', second) == Absorb(alg, alg.compress(second, v'), []);
    }
  }

  /** A chunk that does not complete a block only extends the tail. */
  lemma TailGrows(alg: Algorithm, m: seq<Byte>, chunk: seq<Byte>)
    requires |Tail(m)| + |chunk| < BLEN
    ensures Absorb(alg, alg.iv, m + chunk) == Absorb(alg, alg.iv, m)
    ensures Tail(m + chunk) == Tail(m) + chunk
  {
    AbsorbAppend(alg, alg.iv, m, chunk);
  }

  /** A chunk that completes the block compresses it once. */
  lemma BlockCompletes(alg: Algorithm, m: seq<Byte>, chunk: seq<Byte>)
    requires |Tail(m)| + |chunk| == BLEN
    ensures Absorb(alg, alg.iv, m + chunk) == alg.compress(Tail(m) + chunk, Absorb(alg, alg.iv, m))
    ensures Tail(m + chunk) == []
  {
    AbsorbAppend(alg, alg.iv, m, chunk);
    var block := Tail(m) + chunk;
    assert block[..64] == block && block[64..] == [];
  }

  /** count & 63 is the length of the tail, even after the counter has wrapped. */
  lemma CountLow(m: seq<Byte>)
    ensures |m| % MOD64 % BLEN == |Tail(m)|
  {
    TailLength(m);
  }

  lemma CountAdds(a: nat, b: nat)
    ensures (a % MOD64 + b) % MOD64 == (a + b) % MOD64
  {
  }

  // ----- the context -----

  class Context {
    const alg: Algorithm
    const buf: array<Byte>
    const val: array<U32>
    var count: U64
    /** Everything absorbed since the last initialisation. */
    ghost var message: seq<Byte>

    ghost predicate Shape()
      reads this
    {
      KeepsWidth(alg) && buf.Length == BLEN && val.Length == |alg.iv| && buf as object != val
    }

    /** The chaining value covers the whole blocks of m and the buffer starts with the rest. */
    ghost predicate StateOf(m: seq<Byte>)
      requires Shape()
      reads this, buf, val
    {
      val[..] == Absorb(alg, alg.iv, m) && buf[..|Tail(m)|] == Tail(m)
    }

    ghost predicate Counted()
      reads this
    {
      Shape() && count == |message| % MOD64
    }

    ghost predicate Valid()
      reads this, buf, val
    {
      Counted() && StateOf(message)
    }

    /** sph_sha1_init and sph_sha256_init */
    constructor (alg: Algorithm)
      requires KeepsWidth(alg)
      ensures Valid() && message == [] && this.alg == alg
      ensures fresh(buf) && fresh(val)
    {
      this.alg := alg;
      buf := new Byte[BLEN](_ => 0);
      val := new U32[|alg.iv|](i requires 0 <= i < |alg.iv| => alg.iv[i]);
      count := 0;
      message := [];
      new;
      assert val[..] == alg.iv;
    }

    method Init()
      requires Shape()
      modifies this, val
      ensures Valid() && message == []
    {
      forall i | 0 <= i < val.Length {
        val[i] := alg.iv[i];
      }
      count := 0;
      message := [];
      assert val[..] == alg.iv;
    }

    /** RFUN(block, val) */
    method Compress(block: seq<Byte>)
      requires Shape()
      modifies val
      ensures val[..] == alg.compress(block, old(val[..]))
    {
      var next := alg.compress(block, val[..]);
      forall i | 0 <= i < val.Length {
        val[i] := next[i];
      }
      assert val[..] == next;
    }

    /** The buffered path. */
    method Short(data: seq<Byte>)
      requires Valid()
      modifies this, buf, val
      ensures Valid() && message == old(message) + data
    {
      CountLow(message);
      var current := count % BLEN;
      var rest := data;
      while |rest| > 0
        invariant Valid() && message + rest == old(message) + data
        invariant current == |Tail(message)|
      {
        var clen := BLEN - current;
        if clen > |rest| {
          clen := |rest|;
        }
        var chunk := rest[..clen];
        assert message + rest == message + chunk + rest[clen..];
        Memcpy(buf, current, chunk);
        assert buf[..current + clen] == Tail(message) + chunk;
        rest := rest[clen..];
        current := current + clen;
        if current == BLEN {
          BlockCompletes(alg, message, chunk);
          assert buf[..] == buf[..BLEN];
          Compress(buf[..]);
          current := 0;
        } else {
          TailGrows(alg, message, chunk);
        }
        CountAdds(|message|, clen);
        count := (count + clen) % MOD64;
        message := message + chunk;
      }
    }

    /** RFUN on successive blocks read straight from the data. */
    method Direct(rest: seq<Byte>)
      requires Valid() && Tail(message) == []
      modifies this, buf, val
      ensures Valid() && message == old(message) + rest
    {
      ghost var m := message;
      var data := rest;
      while |data| >= BLEN
        invariant Shape() && message == m && count == old(count)
        invariant Absorb(alg, val[..], data) == Absorb(alg, Absorb(alg, alg.iv, m), rest)
        invariant Tail(data) == Tail(rest)
      {
        Compress(data[..BLEN]);
        data := data[BLEN..];
      }
      if |data| > 0 {
        Memcpy(buf, 0, data);
      }
      assert buf[..|data|] == data;
      AbsorbAppend(alg, alg.iv, m, rest);
      assert Tail(m) + rest == rest;
      CountAdds(|m|, |rest|);
      count := (count + |rest|) % MOD64;
      message := m + rest;
    }

    /** The direct-block path; `aligned` is the outcome of the alignment test on the data pointer. */
    method Update(data: seq<Byte>, aligned: bool)
      requires Valid()
      modifies this, buf, val
      ensures Valid() && message == old(message) + data
    {
      if |data| < 2 * BLEN {
        Short(data);
        return;
      }
      var rest := data;
      CountLow(message);
      var current := count % BLEN;
      if current > 0 {
        var t := BLEN - current;
        BlockCompletes(alg, message, data[..t]);
        Short(data[..t]);
        rest := data[t..];
        assert data == data[..t] + rest;
      }
      if !aligned {
        Short(rest);
      } else {
        Direct(rest);
      }
    }

    /** The padding and the last one or two blocks. */
    method PadAndCompress(ub: bv32, n: nat)
      requires Valid() && n <= 7
      modifies buf, val
      ensures val[..] == Digest(alg, BitsOf(message) + ExtraBits(ub, n))
    {
      hide Digest, Absorb, Tail, NumberBytes, BitsOf, ExtraBits, Marker, Masked, PaddedBytes, KeepsWidth;
      CountLow(message);
      var current := count % BLEN;
      var z := Marker(n);
      buf[current] := Masked(ub, z);
      current := current + 1;
      ghost var padded := Tail(message) + [PadByte(ub, n)];
      assert buf[..current] == padded;
      ZeroFill(current, padded);
      WriteLength(n);
      Compress(buf[..]);
      LastBlocks(alg, message, ub, n);
      DigestOfPadded(alg, message, ub, n);
    }

    /** Zeros up to the length field, with an extra block when the field does not fit. */
    method ZeroFill(current: nat, ghost padded: seq<Byte>)
      requires Shape() && current <= BLEN && buf[..current] == padded
      modifies buf, val
      ensures if current > MAXPAD then
          val[..] == alg.compress(padded + Zeros(BLEN - current), old(val[..])) && buf[..MAXPAD] == Zeros(MAXPAD)
        else
          val[..] == old(val[..]) && buf[..MAXPAD] == padded + Zeros(MAXPAD - current)
    {
      if current > MAXPAD {
        ClearBytes(buf, current, BLEN - current);
        assert buf[..] == padded + Zeros(BLEN - current);
        Compress(buf[..]);
        ClearBytes(buf, 0, MAXPAD);
      } else {
        ClearBytes(buf, current, MAXPAD - current);
      }
    }

    /** sph_enc64be_aligned(buf + MAXPAD, (count << 3) + n) */
    method WriteLength(n: nat)
      requires Counted() && n <= 7
      modifies buf
      ensures buf[..] == old(buf[..MAXPAD]) + NumberBytes(8 * |message| + n, 8)
    {
      LengthFieldWraps(|message|, n);
      Memcpy(buf, MAXPAD, NumberBytes(count * 8 % MOD64 + n, 8));
    }

    /** sph_sha1_addbits_and_close without its final re-initialisation, and sph_sha256_close:
        padding, then the first rnum words of the digest, big-endian. */
    method AddBitsAndClose(ub: bv32, n: nat, dst: array<Byte>, rnum: nat)
      requires Valid() && n <= 7
      requires rnum <= val.Length && 4 * rnum <= dst.Length && dst != buf && dst as object != val
      modifies buf, val, dst
      ensures |Digest(alg, BitsOf(message) + ExtraBits(ub, n))| == val.Length
      ensures dst[..4 * rnum] == Be32s(Digest(alg, BitsOf(message) + ExtraBits(ub, n))[..rnum])
      ensures dst[4 * rnum..] == old(dst[4 * rnum..])
    {
      PadAndCompress(ub, n);
      ghost var digest := val[..];
      for u := 0 to rnum
        invariant val[..] == digest
        invariant dst[..4 * u] == Be32s(digest[..u])
        invariant dst[4 * u..] == old(dst[4 * u..])
      {
        assert digest[..u + 1][..u] == digest[..u];
        Memcpy(dst, 4 * u, Be32(val[u]));
      }
    }
  }

  /** Any way of cutting a message into update calls, each on either path, gives the digest of the whole. */
  method HashPieces(alg: Algorithm, pieces: seq<seq<Byte>>, aligned: seq<bool>, rnum: nat) returns (out: array<Byte>)
    requires KeepsWidth(alg) && |aligned| == |pieces| && rnum <= |alg.iv|
    ensures out.Length == 4 * rnum
    ensures |Digest(alg, BitsOf(Concat(pieces)))| == |alg.iv|
    ensures out[..] == Be32s(Digest(alg, BitsOf(Concat(pieces)))[..rnum])
  {
    var c := new Context(alg);
    for i := 0 to |pieces|
      invariant fresh(c) && fresh(c.buf) && fresh(c.val) && c.alg == alg
      invariant c.Valid() && c.message == Concat(pieces[..i])
    {
      assert pieces[..i + 1][..i] == pieces[..i];
      c.Update(pieces[i], aligned[i]);
    }
    assert pieces[..|pieces|] == pieces;
    out := new Byte[4 * rnum](_ => 0);
    c.AddBitsAndClose(0, 0, out, rnum);
    assert BitsOf(c.message) + ExtraBits(0, 0) == BitsOf(c.message);
    assert out[..4 * rnum] == out[..];
  }

  function Concat(pieces: seq<seq<Byte>>): seq<Byte> {
    if pieces == [] then [] else Concat(pieces[..|pieces| - 1]) + pieces[|pieces| - 1]
  }
}
