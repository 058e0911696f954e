/** algo/civiclight/civiclight.c: the proof-of-work hash one header at a time, and the two-lane
    form with hand-built padding and a shared midstate. SHA-256's compression function and yespower
    are parameters; the 2x transform and yespower2 are two independent calls of them. */
module Civiclight {
  import opened Bytes
  import opened FipsPadding
  import opened Sha256

  const V2_ACTIVATION_TIME := 1784797200

  datatype Primitives = Primitives(sha: Algorithm, yespower: seq<Byte> -> seq<Byte>)

  ghost predicate Usable(p: Primitives) {
    IsSha256(p.sha) && forall s :: |p.yespower(s)| == 32
  }

  lemma UsableExists() returns (p: Primitives)
    ensures Usable(p)
  {
    p := Primitives(Algorithm((block, v) => v, IV), s => Zeros(32));
  }

  // ----- the one-lane definition -----

  function Bits(a: Byte): bv8 {
    a as bv8
  }

  function Number(x: bv8): Byte {
    x as int
  }

  /** The exclusive or of two bytes. */
  function XorByte(a: Byte, b: Byte): Byte {
    Number(Bits(a) ^ Bits(b))
  }

  lemma NumberLow(x: bv8)
    ensures Number(x) % 2 == if x & 1 == 1 then 1 else 0
  {
  }

  lemma NumberHalf(x: bv8)
    ensures Number(x) / 2 == Number(x >> 1)
  {
  }

  lemma BitsLow(a: Byte)
    ensures Bits(a) & 1 == 1 <==> a % 2 == 1
  {
  }

  lemma BitsHalf(a: Byte)
    ensures Bits(a / 2) == Bits(a) >> 1
  {
  }

  lemma LowXor(x: bv8, y: bv8)
    ensures (x ^ y) & 1 == 1 <==> (x & 1 == 1) != (y & 1 == 1)
  {
  }

  lemma HalfXor(x: bv8, y: bv8)
    ensures (x ^ y) >> 1 == (x >> 1) ^ (y >> 1)
  {
  }

  /** In numbers: the last binary place is 1 exactly when the two bytes differ there, and so on for their halves. */
  lemma XorByteIs(a: Byte, b: Byte)
    ensures XorByte(a, b) == 2 * XorByte(a / 2, b / 2) + if a % 2 == b % 2 then 0 else 1
  {
    hide Bits, Number;
    NumberHalf(Bits(a) ^ Bits(b));
    NumberLow(Bits(a) ^ Bits(b));
    LowXor(Bits(a), Bits(b));
    HalfXor(Bits(a), Bits(b));
    BitsHalf(a);
    BitsHalf(b);
    BitsLow(a);
    BitsLow(b);
  }

  function XorAll(a: seq<Byte>, b: seq<Byte>): (r: seq<Byte>)
    requires |a| == |b|
    ensures |r| == |a|
  {
    seq(|a|, i requires 0 <= i < |a| => XorByte(a[i], b[i]))
  }

  function Mask5A(): (r: seq<Byte>)
    ensures |r| == 32
  {
    seq(32, _ => 0x5A)
  }

  ghost function Sha(p: Primitives, m: seq<Byte>): (h: seq<Byte>)
    requires Usable(p)
    ensures |h| == 32
  {
    DigestHasEightWords(p.sha, m);
    DigestBytes(p.sha, m)
  }

  ghost function CoreV1(p: Primitives, x: seq<Byte>): (h: seq<Byte>)
    requires Usable(p)
    ensures |h| == 32
  {
    Sha(p, XorAll(Sha(p, x), Mask5A()))
  }

  ghost function CoreV2(p: Primitives, x: seq<Byte>): (h: seq<Byte>)
    requires Usable(p)
    ensures |h| == 32
  {
    Sha(p, XorAll(p.yespower(Sha(p, x)), Sha(p, x)))
  }

  /** Bytes 68 to 71 of a header, little-endian. */
  function ExtractNtime(header: seq<Byte>): U32
    requires |header| == 80
  {
    FromLe32(header[68..72])
  }

  ghost function Core(p: Primitives, ntime: U32, x: seq<Byte>): (h: seq<Byte>)
    requires Usable(p)
    ensures |h| == 32
  {
    if ntime >= V2_ACTIVATION_TIME then CoreV2(p, x) else CoreV1(p, x)
  }

  /** The hash of one 80-byte header. */
  ghost function PowHash(p: Primitives, header: seq<Byte>): (h: seq<Byte>)
    requires Usable(p) && |header| == 80
    ensures |h| == 32
  {
    Core(p, ExtractNtime(header), Sha(p, Sha(p, header)))
  }

  // ----- one lane -----

  method ShaFull(p: Primitives, m: seq<Byte>) returns (h: seq<Byte>)
    requires Usable(p)
    ensures h == Sha(p, m)
  {
    var out := Full(p.sha, m);
    h := out[..];
  }

  method RunCoreV1(p: Primitives, input: seq<Byte>) returns (output: seq<Byte>)
    requires Usable(p)
    ensures output == CoreV1(p, input)
  {
    var h := Full(p.sha, input);
    ghost var before := Sha(p, input);
    assert h[..] == before;
    for i := 0 to 32
      invariant forall j :: 0 <= j < 32 ==> h[j] == if j < i then XorByte(before[j], 0x5A) else before[j]
    {
      h[i] := XorByte(h[i], 0x5A);
    }
    assert h[..] == XorAll(before, Mask5A());
    output := ShaFull(p, h[..]);
  }

  method XorLoop(a: seq<Byte>, b: seq<Byte>) returns (out: array<Byte>)
    requires |a| == |b| == 32
    ensures out.Length == 32 && out[..] == XorAll(a, b)
  {
    out := new Byte[32](_ => 0);
    for i := 0 to 32
      invariant out[..i] == XorAll(a, b)[..i]
    {
      out[i] := XorByte(a[i], b[i]);
    }
    assert out[..] == out[..32];
  }

  method RunCoreV2(p: Primitives, input: seq<Byte>) returns (output: seq<Byte>)
    requires Usable(p)
    ensures output == CoreV2(p, input)
  {
    var h := ShaFull(p, input);
    var xored := XorLoop(p.yespower(h), h);
    output := ShaFull(p, xored[..]);
  }

  /** civiclight_powhash */
  method RunPowHash(p: Primitives, header: seq<Byte>) returns (output: seq<Byte>)
    requires Usable(p) && |header| == 80
    ensures output == PowHash(p, header)
  {
    var h := ShaFull(p, header);
    var intermediate := ShaFull(p, h);
    if ExtractNtime(header) >= V2_ACTIVATION_TIME {
      output := RunCoreV2(p, intermediate);
    } else {
      output := RunCoreV1(p, intermediate);
    }
  }

  /** sha256d_80_midstate: the second block through a copy of the midstate. */
  method RunSha80Midstate(p: Primitives, header: seq<Byte>, midstate: Sha256Context) returns (output: seq<Byte>)
    requires Usable(p) && |header| == 80
    requires midstate.Valid() && midstate.alg == p.sha && midstate.message == header[..64]
    ensures output == Sha(p, Sha(p, header))
  {
    var ctx := new Sha256Context.Copy(midstate);
    ctx.Update(header[64..80]);
    assert header[..64] + header[64..80] == header;
    var h := new Byte[32](_ => 0);
    ctx.Final(h);
    output := ShaFull(p, h[..]);
  }

  /** civiclight_powhash_from_midstate */
  method RunPowHashFromMidstate(p: Primitives, header: seq<Byte>, midstate: Sha256Context) returns (output: seq<Byte>)
    requires Usable(p) && |header| == 80
    requires midstate.Valid() && midstate.alg == p.sha && midstate.message == header[..64]
    ensures output == PowHash(p, header)
  {
    var intermediate := RunSha80Midstate(p, header, midstate);
    if ExtractNtime(header) >= V2_ACTIVATION_TIME {
      output := RunCoreV2(p, intermediate);
    } else {
      output := RunCoreV1(p, intermediate);
    }
  }

  // ----- two lanes -----

  lemma LengthBytes()
    ensures NumberBytes(256, 8) == [0, 0, 0, 0, 0, 0, 1, 0]
    ensures NumberBytes(640, 8) == [0, 0, 0, 0, 0, 0, 2, 0x80]
  {
    assert NumberBytes(2, 7) == NumberBytes(0, 6) + [2];
    assert NumberBytes(1, 7) == NumberBytes(0, 6) + [1];
    assert NumberBytes(0, 6) == [0, 0, 0, 0, 0, 0];
  }

  /** The only block of a 32-byte message. */
  function Block32(m: seq<Byte>): (b: seq<Byte>)
    requires |m| == 32
    ensures |b| == 64
  {
    m + [0x80] + Zeros(29) + [0x01, 0x00]
  }

  lemma OneBlockDigest(alg: Algorithm, m: seq<Byte>)
    requires |m| == 32
    ensures Digest(alg, BitsOf(m)) == alg.compress(Block32(m), alg.iv)
  {
    FinalBlocks(alg, m);
    LengthBytes();
    assert m + [0x80] + Zeros(23) + [0, 0, 0, 0, 0, 0, 1, 0] == Block32(m);
  }

  /** The second block of an 80-byte message. */
  function Block80(tail: seq<Byte>): (b: seq<Byte>)
    requires |tail| == 16
    ensures |b| == 64
  {
    tail + [0x80] + Zeros(45) + [0x02, 0x80]
  }

  lemma Block80Is(tail: seq<Byte>)
    requires |tail| == 16
    ensures tail + [0x80] + Zeros(39) + NumberBytes(640, 8) == Block80(tail)
  {
    LengthBytes();
    assert tail + [0x80] + Zeros(39) + [0, 0, 0, 0, 0, 0, 2, 0x80] == Block80(tail);
  }

  lemma WholeBlockAndRest(alg: Algorithm, m: seq<Byte>)
    requires |m| == 80
    ensures Absorb(alg, alg.iv, m) == Absorb(alg, alg.iv, m[..64]) && Tail(m) == m[64..]
  {
    AbsorbAppend(alg, alg.iv, m[..64], m[64..]);
    assert m[..64] + m[64..] == m;
    assert Tail(m[..64]) == [] && [] + m[64..] == m[64..];
  }

  lemma TwoBlockDigest(alg: Algorithm, m: seq<Byte>)
    requires |m| == 80
    ensures Digest(alg, BitsOf(m)) == alg.compress(Block80(m[64..]), Absorb(alg, alg.iv, m[..64]))
  {
    hide *;
    FinalBlocks(alg, m);
    WholeBlockAndRest(alg, m);
    Block80Is(m[64..]);
  }

  /** memcpy, memset and the three marker bytes of a hand-padded block. */
  method BuildBlock(data: seq<Byte>, b62: Byte, b63: Byte) returns (blk: array<Byte>)
    requires |data| <= 55
    ensures fresh(blk) && blk.Length == 64
    ensures blk[..] == data + [0x80] + Zeros(61 - |data|) + [b62, b63]
  {
    blk := new Byte[64](_ => 0);
    Memcpy(blk, 0, data);
    ClearBytes(blk, |data|, 64 - |data|);
    blk[|data|] := 0x80;
    blk[62] := b62;
    blk[63] := b63;
  }

  /** sha256_32_2way */
  method RunSha32TwoWay(p: Primitives, in0: seq<Byte>, in1: seq<Byte>) returns (out0: seq<Byte>, out1: seq<Byte>)
    requires Usable(p) && |in0| == |in1| == 32
    ensures out0 == Sha(p, in0) && out1 == Sha(p, in1)
  {
    var blk0 := BuildBlock(in0, 0x01, 0x00);
    var blk1 := BuildBlock(in1, 0x01, 0x00);
    var st0 := p.sha.compress(blk0[..], p.sha.iv);
    var st1 := p.sha.compress(blk1[..], p.sha.iv);
    OneBlockDigest(p.sha, in0);
    OneBlockDigest(p.sha, in1);
    out0 := SwappedBytes(st0);
    out1 := SwappedBytes(st1);
  }

  method SwappedBytes(words: seq<U32>) returns (out: seq<Byte>)
    requires |words| == 8
    ensures out == Be32s(words)
  {
    var buf := new Byte[32](_ => 0);
    StoreSwapped(buf, words);
    out := buf[..];
  }

  /** sha256d_80_2way_midstate */
  method RunSha80TwoWay(p: Primitives, header0: seq<Byte>, header1: seq<Byte>, midstate: Sha256Context)
    returns (out0: seq<Byte>, out1: seq<Byte>)
    requires Usable(p) && |header0| == |header1| == 80
    requires midstate.Valid() && midstate.alg == p.sha
    requires midstate.message == header0[..64] == header1[..64]
    ensures out0 == Sha(p, Sha(p, header0)) && out1 == Sha(p, Sha(p, header1))
  {
    var blk0 := BuildBlock(header0[64..80], 0x02, 0x80);
    var blk1 := BuildBlock(header1[64..80], 0x02, 0x80);
    var st0 := p.sha.compress(blk0[..], midstate.state[..]);
    var st1 := p.sha.compress(blk1[..], midstate.state[..]);
    assert header0[64..80] == header0[64..] && header1[64..80] == header1[64..];
    TwoBlockDigest(p.sha, header0);
    TwoBlockDigest(p.sha, header1);
    var h0 := SwappedBytes(st0);
    var h1 := SwappedBytes(st1);
    out0, out1 := RunSha32TwoWay(p, h0, h1);
  }

  /** civiclight_core_v2_2way */
  method RunCoreV2TwoWay(p: Primitives, input0: seq<Byte>, input1: seq<Byte>)
    returns (output0: seq<Byte>, output1: seq<Byte>)
    requires Usable(p) && |input0| == |input1|
    ensures output0 == CoreV2(p, input0) && output1 == CoreV2(p, input1)
  {
    var h0, h1;
    if |input0| == 32 {
      h0, h1 := RunSha32TwoWay(p, input0, input1);
    } else {
      h0 := ShaFull(p, input0);
      h1 := ShaFull(p, input1);
    }
    var xor0 := XorLoop(p.yespower(h0), h0);
    var xor1 := XorLoop(p.yespower(h1), h1);
    output0, output1 := RunSha32TwoWay(p, xor0[..], xor1[..]);
  }

  /** civiclight_powhash_2way_midstate, with headers on either side of the activation time. */
  method RunPowHashTwoWay(p: Primitives, header0: seq<Byte>, header1: seq<Byte>, midstate: Sha256Context)
    returns (output0: seq<Byte>, output1: seq<Byte>)
    requires Usable(p) && |header0| == |header1| == 80
    requires midstate.Valid() && midstate.alg == p.sha
    requires midstate.message == header0[..64] == header1[..64]
    ensures output0 == PowHash(p, header0) && output1 == PowHash(p, header1)
  {
    var x0, x1 := RunSha80TwoWay(p, header0, header1, midstate);
    if ExtractNtime(header0) >= V2_ACTIVATION_TIME && ExtractNtime(header1) >= V2_ACTIVATION_TIME {
      output0, output1 := RunCoreV2TwoWay(p, x0, x1);
    } else {
      if ExtractNtime(header0) >= V2_ACTIVATION_TIME {
        output0 := RunCoreV2(p, x0);
      } else {
        output0 := RunCoreV1(p, x0);
      }
      if ExtractNtime(header1) >= V2_ACTIVATION_TIME {
        output1 := RunCoreV2(p, x1);
      } else {
        output1 := RunCoreV1(p, x1);
      }
    }
  }

  /** civiclight_hash_2way: for every pair of headers, each output is the one-lane hash of its header. */
  method HashTwoWay(p: Primitives, input0: seq<Byte>, input1: seq<Byte>)
    returns (output0: seq<Byte>, output1: seq<Byte>)
    requires Usable(p) && |input0| == |input1| == 80
    ensures output0 == PowHash(p, input0) && output1 == PowHash(p, input1)
  {
    if input0[..64] != input1[..64] {
      output0 := RunPowHash(p, input0);
      output1 := RunPowHash(p, input1);
      return;
    }
    var midstate := new Sha256Context(p.sha);
    midstate.Update(input0[..64]);
    assert [] + input0[..64] == input0[..64];
    output0, output1 := RunPowHashTwoWay(p, input0, input1, midstate);
  }
}
