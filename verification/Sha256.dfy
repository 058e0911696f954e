/** algo/sha/sha256-hash.c: the streaming SHA-256 that the SHA-NI build uses. The compression
    function itself (sha256_transform_be) is a parameter. */
module Sha256 {
  import opened Bytes
  import opened FipsPadding
  import opened MerkleDamgard
  import opened PaddingByte

  const IV: seq<U32> :=
    [0x6A09E667, 0xBB67AE85, 0x3C6EF372, 0xA54FF53A, 0x510E527F, 0x9B05688C, 0x1F83D9AB, 0x5BE0CD19]

  /** The initial value: the first 32 bits after the point of the square roots of the first eight primes. */
  lemma InitialValueIsRoots(i: nat)
    requires i < 8
    ensures |IV| == 8
    ensures var prime, whole := [2, 3, 5, 7, 11, 13, 17, 19][i], [1, 1, 2, 2, 3, 3, 4, 4][i];
      var root := whole * 0x1_0000_0000 + IV[i] as int;
      root * root <= prime * 0x1_0000_0000_0000_0000 < (root + 1) * (root + 1)
  {
  }

  /** SHA-256 over some compression function that keeps eight words. */
  ghost predicate IsSha256(alg: Algorithm) {
    alg.iv == IV && KeepsWidth(alg)
  }

  lemma PlainPadByte()
    ensures PadByte(0, 0) == 0x80
  {
    PowersOfTwo();
    PadByteIs(0, 0);
    HalveByte(LowByte(0));
  }

  lemma NoExtraBits(m: seq<Byte>)
    ensures BitsOf(m) + ExtraBits(0, 0) == BitsOf(m)
  {
  }

  lemma DigestHasEightWords(alg: Algorithm, m: seq<Byte>)
    requires IsSha256(alg)
    ensures |Digest(alg, BitsOf(m))| == 8 && |DigestBytes(alg, m)| == 32
  {
    AbsorbWidth(alg, alg.iv, Pack(Padded(BitsOf(m))));
  }

  lemma BlockSizes()
    ensures BLEN == 64 && MAXPAD == 56
  {
  }

  /** The last blocks that sha256_final compresses finish the digest. */
  lemma FinalBlocks(alg: Algorithm, m: seq<Byte>)
    ensures var t, v, length := Tail(m), Absorb(alg, alg.iv, m), NumberBytes(8 * |m|, 8);
      Digest(alg, BitsOf(m)) ==
      if |t| + 1 > 56 then
        alg.compress(Zeros(56) + length, alg.compress(t + [0x80] + Zeros(64 - |t| - 1), v))
      else
        alg.compress(t + [0x80] + Zeros(56 - |t| - 1) + length, v)
  {
    hide *;
    PlainPadByte();
    NoExtraBits(m);
    DigestOfPadded(alg, m, 0, 0);
    LastBlocks(alg, m, 0, 0);
    BlockSizes();
  }

  /** Filling up the buffered block first, then going on from a block boundary. */
  lemma FirstBlockThenRest(alg: Algorithm, m: seq<Byte>, data: seq<Byte>)
    requires |Tail(m)| + |data| >= 64
    ensures var k := 64 - |Tail(m)|;
      Absorb(alg, alg.iv, m + data) == Absorb(alg, alg.compress(Tail(m) + data[..k], Absorb(alg, alg.iv, m)), data[k..])
      && Tail(m + data) == Tail(data[k..])
  {
    hide Absorb, Tail;
    var k := 64 - |Tail(m)|;
    var head, rest := data[..k], data[k..];
    BlockCompletes(alg, m, head);
    assert data == head + rest && m + data == m + head + rest;
    AbsorbAppend(alg, alg.iv, m + head, rest);
    assert [] + rest == rest;
  }

  /** ((uint32_t *)dst)[i] = bswap_32(words[i]) on a little-endian machine. */
  method StoreSwapped(dst: array<Byte>, words: seq<U32>)
    requires dst.Length == 4 * |words|
    modifies dst
    ensures dst[..] == Be32s(words)
  {
    for i := 0 to |words|
      invariant dst[..4 * i] == Be32s(words[..i])
    {
      assert words[..i + 1][..i] == words[..i];
      Bswap32Facts(words[i]);
      Memcpy(dst, 4 * i, Le32(Bswap32(words[i])));
    }
    assert words[..|words|] == words && dst[..4 * |words|] == dst[..];
  }

  class Sha256Context {
    const alg: Algorithm
    const buf: array<Byte>
    const state: array<U32>
    var count: U64
    /** Everything absorbed so far. */
    ghost var message: seq<Byte>

    ghost predicate Counted()
      reads this
    {
      IsSha256(alg) && buf.Length == BLEN && state.Length == 8 && buf as object != state
      && count == |message| % MOD64
    }

    ghost predicate Valid()
      reads this, buf, state
    {
      Counted() && state[..] == Absorb(alg, alg.iv, message) && buf[..|Tail(message)|] == Tail(message)
    }

    /** sha256_ctx_init */
    constructor (alg: Algorithm)
      requires IsSha256(alg)
      ensures Valid() && message == [] && this.alg == alg && fresh(buf) && fresh(state)
    {
      this.alg := alg;
      buf := new Byte[BLEN](_ => 0);
      state := new U32[8](i requires 0 <= i < 8 => IV[i]);
      count := 0;
      message := [];
      new;
      assert state[..] == IV;
    }

    /** A struct assignment. */
    constructor Copy(from: Sha256Context)
      requires from.Valid()
      ensures Valid() && message == from.message && this.alg == from.alg && fresh(buf) && fresh(state)
    {
      alg := from.alg;
      buf := new Byte[BLEN](i requires 0 <= i < BLEN && from.buf.Length == BLEN reads from, from.buf => from.buf[i]);
      state := new U32[8](i requires 0 <= i < 8 && from.state.Length == 8 reads from, from.state => from.state[i]);
      count := from.count;
      message := from.message;
      new;
      assert state[..] == from.state[..] && buf[..] == from.buf[..];
    }

    /** sha256_transform_be(state, block, state) */
    method Transform(block: seq<Byte>)
      requires Counted()
      modifies state
      ensures state[..] == alg.compress(block, old(state[..]))
    {
      var next := alg.compress(block, state[..]);
      forall i | 0 <= i < 8 {
        state[i] := next[i];
      }
      assert state[..] == next;
    }

    /** sha256_update */
    method Update(data: seq<Byte>)
      requires Valid()
      modifies this, buf, state
      ensures Valid() && message == old(message) + data
    {
      hide Absorb, Tail;
      CountLow(message);
      var ptr := count % 64;
      ghost var m := message;
      CountAdds(|m|, |data|);
      count := (count + |data|) % MOD64;
      message := m + data;
      if |data| < 64 - ptr {
        TailGrows(alg, m, data);
        Memcpy(buf, ptr, data);
        assert buf[..ptr + |data|] == Tail(m) + data;
        return;
      }
      var head := data[..64 - ptr];
      var rest := data[64 - ptr..];
      Memcpy(buf, ptr, head);
      assert buf[..] == Tail(m) + head;
      Transform(buf[..]);
      FirstBlockThenRest(alg, m, data);
      Blocks(rest);
    }

    /** The whole blocks of the remaining data, then its tail into the buffer. */
    method Blocks(data: seq<Byte>)
      requires Counted()
      modifies buf, state
      ensures state[..] == Absorb(alg, old(state[..]), data)
      ensures buf[..|Tail(data)|] == Tail(data)
    {
      var src := data;
      while |src| >= 64
        invariant Absorb(alg, state[..], src) == Absorb(alg, old(state[..]), data)
        invariant Tail(src) == Tail(data)
      {
        Transform(src[..64]);
        src := src[64..];
      }
      Memcpy(buf, 0, src);
      assert buf[..|src|] == src;
    }

    /** sha256_final */
    method Final(hash: array<Byte>)
      requires Valid() && hash.Length == 32 && hash != buf && hash as object != state
      modifies buf, state, hash
      ensures hash[..] == DigestBytes(alg, message)
    {
      PadAndTransform();
      StoreSwapped(hash, state[..]);
    }

    method PadAndTransform()
      requires Valid()
      modifies buf, state
      ensures state[..] == Digest(alg, BitsOf(message))
    {
      hide Digest, Absorb, Tail, NumberBytes, BitsOf;
      CountLow(message);
      var ptr := count % 64;
      buf[ptr] := 0x80;
      ptr := ptr + 1;
      ghost var padded := Tail(message) + [0x80];
      assert buf[..ptr] == padded;
      ZeroFill(ptr, padded);
      WriteLength();
      Transform(buf[..]);
      FinalBlocks(alg, message);
    }

    method ZeroFill(ptr: nat, ghost padded: seq<Byte>)
      requires Counted() && ptr <= 64 && buf[..ptr] == padded
      modifies buf, state
      ensures if ptr > 56 then
          state[..] == alg.compress(padded + Zeros(64 - ptr), old(state[..])) && buf[..56] == Zeros(56)
        else
          state[..] == old(state[..]) && buf[..56] == padded + Zeros(56 - ptr)
    {
      if ptr > 56 {
        ClearBytes(buf, ptr, 64 - ptr);
        assert buf[..] == padded + Zeros(64 - ptr);
        Transform(buf[..]);
        ClearBytes(buf, 0, 56);
      } else {
        ClearBytes(buf, ptr, 56 - ptr);
      }
    }

    /** The bit count, stored as bswap_64(count << 3). */
    method WriteLength()
      requires Counted()
      modifies buf
      ensures buf[..] == old(buf[..56]) + NumberBytes(8 * |message|, 8)
    {
      LengthFieldWraps(|message|, 0);
      Memcpy(buf, 56, NumberBytes(count * 8 % MOD64, 8));
    }
  }

  /** sha256_full */
  method Full(alg: Algorithm, data: seq<Byte>) returns (hash: array<Byte>)
    requires IsSha256(alg)
    ensures fresh(hash) && hash.Length == 32 && hash[..] == DigestBytes(alg, data)
  {
    var ctx := new Sha256Context(alg);
    ctx.Update(data);
    assert [] + data == data;
    hash := new Byte[32](_ => 0);
    ctx.Final(hash);
  }
}
