/** algo/sha/sha1.c: the SHA-1 compression function with its rounds written out, sixteen circular
    schedule words and rotating register roles, against FIPS 180-4 section 6.1.2. */
module Sha1 {
  import opened Bytes
  import opened FipsPadding
  import opened MerkleDamgard

  // ----- FIPS 180-4: sections 3.2, 4.1.1, 4.2.1 and 6.1.2 -----

  function Rotl(x: bv32, n: nat): bv32
    requires n < 32
  {
    (x << n) | (x >> (32 - n))
  }

  function Ch(x: bv32, y: bv32, z: bv32): bv32 {
    (x & y) ^ (!x & z)
  }

  function Parity(x: bv32, y: bv32, z: bv32): bv32 {
    x ^ y ^ z
  }

  function Maj(x: bv32, y: bv32, z: bv32): bv32 {
    (x & y) ^ (x & z) ^ (y & z)
  }

  function Ft(t: nat, x: bv32, y: bv32, z: bv32): bv32 {
    if t < 20 then Ch(x, y, z) else if t < 40 then Parity(x, y, z) else if t < 60 then Maj(x, y, z) else Parity(x, y, z)
  }

  function Kt(t: nat): bv32 {
    if t < 20 then 0x5A827999 else if t < 40 then 0x6ED9EBA1 else if t < 60 then 0x8F1BBCDC else 0xCA62C1D6
  }

  /** The five-term sum of a round, modulo 2^32. */
  function Add5(x: bv32, f: bv32, e: bv32, k: bv32, w: bv32): bv32 {
    x + f + e + k + w
  }

  function Xor4(p: bv32, q: bv32, r: bv32, s: bv32): bv32 {
    p ^ q ^ r ^ s
  }

  datatype Vars = Vars(a: bv32, b: bv32, c: bv32, d: bv32, e: bv32)

  function Round(t: nat, v: Vars, w: bv32): Vars {
    Vars(Add5(Rotl(v.a, 5), Ft(t, v.b, v.c, v.d), v.e, Kt(t), w), v.a, Rotl(v.b, 30), v.c, v.d)
  }

  /** w follows the recurrence of the message schedule at t. */
  predicate Scheduled(w: seq<bv32>, t: nat)
    requires 16 <= t < |w|
  {
    w[t] == Rotl(Xor4(w[t - 3], w[t - 8], w[t - 14], w[t - 16]), 1)
  }

  ghost predicate IsSchedule(w: seq<bv32>) {
    |w| == 80 && forall t :: 16 <= t < 80 ==> Scheduled(w, t)
  }

  function Expand(w: seq<bv32>, n: nat): (r: seq<bv32>)
    requires 16 <= |w|
    requires forall t :: 16 <= t < |w| ==> Scheduled(w, t)
    ensures |r| == |w| + n && r[..|w|] == w
    ensures forall t :: 16 <= t < |r| ==> Scheduled(r, t)
    decreases n
  {
    if n == 0 then w
    else
      var t := |w|;
      var w' := w + [Rotl(Xor4(w[t - 3], w[t - 8], w[t - 14], w[t - 16]), 1)];
      assert Scheduled(w', t) by { assert w'[..t] == w; }
      assert forall u :: 16 <= u < t ==> Scheduled(w, u) ==> Scheduled(w', u);
      Expand(w', n - 1)
  }

  /** The message schedule of a 16-word block. */
  function Schedule(block: seq<bv32>): (w: seq<bv32>)
    requires |block| == 16
    ensures IsSchedule(w) && w[..16] == block
  {
    Expand(block, 64)
  }

  predicate Step(trace: seq<Vars>, w: seq<bv32>, t: nat)
    requires t < |w| && t + 1 < |trace|
  {
    trace[t + 1] == Round(t, trace[t], w[t])
  }

  /** trace holds the working variables before round 0, ..., after round 79. */
  ghost predicate IsRun(trace: seq<Vars>, w: seq<bv32>) {
    |w| == 80 && |trace| == 81 && forall t :: 0 <= t < 80 ==> Step(trace, w, t)
  }

  function Run(trace: seq<Vars>, w: seq<bv32>): (r: seq<Vars>)
    requires 1 <= |trace| <= |w| + 1
    requires forall t :: 0 <= t < |trace| - 1 ==> Step(trace, w, t)
    ensures |r| == |w| + 1 && r[0] == trace[0]
    ensures forall t :: 0 <= t < |w| ==> Step(r, w, t)
    decreases |w| - |trace|
  {
    var t := |trace| - 1;
    if t == |w| then trace
    else
      var trace' := trace + [Round(t, trace[t], w[t])];
      assert forall u :: 0 <= u < t ==> Step(trace, w, u) && Step(trace', w, u);
      Run(trace', w)
  }

  /** One block: 80 rounds, then the working variables are added to the chaining value. */
  function CompressVars(block: seq<bv32>, v: Vars): Vars
    requires |block| == 16
  {
    AddVars(v, Run([v], Schedule(block))[80])
  }

  /** Addition modulo 2^32. */
  function Plus(x: bv32, y: bv32): bv32 {
    x + y
  }

  function AddVars(v: Vars, r: Vars): Vars {
    Vars(Plus(v.a, r.a), Plus(v.b, r.b), Plus(v.c, r.c), Plus(v.d, r.d), Plus(v.e, r.e))
  }

  lemma AddVarsIs(v: Vars, r: Vars)
    ensures AddVars(v, r) == Vars(Plus(v.a, r.a), Plus(v.b, r.b), Plus(v.c, r.c), Plus(v.d, r.d), Plus(v.e, r.e))
  {
    hide Plus;
  }

  // ----- the compression function on bytes and integer words -----

  function Word(x: U32): bv32 {
    x as bv32
  }

  function Number(w: bv32): U32 {
    w as int
  }

  function WordOfBytes(b: seq<Byte>): bv32
    requires |b| == 4
  {
    Word(FromBe32(b))
  }

  /** The sixteen big-endian words of a block. */
  function BlockWords(block: seq<Byte>): (w: seq<bv32>)
    requires |block| == 64
    ensures |w| == 16
  {
    seq(16, i requires 0 <= i < 16 => WordOfBytes(block[4 * i..4 * i + 4]))
  }

  function VarsOf(v: seq<U32>): Vars
    requires |v| == 5
  {
    Vars(Word(v[0]), Word(v[1]), Word(v[2]), Word(v[3]), Word(v[4]))
  }

  function WordsOf(v: Vars): (s: seq<U32>)
    ensures |s| == 5
  {
    [Number(v.a), Number(v.b), Number(v.c), Number(v.d), Number(v.e)]
  }

  function Compress(block: seq<Byte>, v: seq<U32>): (r: seq<U32>)
    ensures |r| == |v|
  {
    if |block| == 64 && |v| == 5 then WordsOf(CompressVars(BlockWords(block), VarsOf(v))) else v
  }

  /** FIPS 180-4 section 5.3.1. */
  const IV: seq<U32> := [0x67452301, 0xEFCDAB89, 0x98BADCFE, 0x10325476, 0xC3D2E1F0]

  const SHA1 := Algorithm(Compress, IV)

  lemma Sha1KeepsWidth()
    ensures KeepsWidth(SHA1)
  {
  }

  // ----- what the operations and constants are, in numbers and bits -----

  /** Bit i of a word, counted from the least significant one. */
  predicate Bit(x: bv32, i: bv32)
    requires i < 32
  {
    (x >> i) & 1 == 1
  }

  lemma BitIs(x: bv32, i: bv32)
    requires i < 32
    ensures Bit(x, i) <==> (x >> i) & 1 == 1
  {
  }

  /** A rotation by n, for the amounts that occur, takes bit i to bit i + n modulo 32. */
  lemma RotlMovesBits(x: bv32, i: bv32)
    requires i < 32
    ensures Bit(Rotl(x, 1), (i + 1) % 32) <==> Bit(x, i)
    ensures Bit(Rotl(x, 5), (i + 5) % 32) <==> Bit(x, i)
    ensures Bit(Rotl(x, 30), (i + 30) % 32) <==> Bit(x, i)
  {
    hide Rotl, Bit;
    Moves1(x, i);
    Moves5(x, i);
    Moves30(x, i);
  }

  lemma Moves1(x: bv32, i: bv32)
    requires i < 32
    ensures Bit(Rotl(x, 1), (i + 1) % 32) <==> Bit(x, i)
  {
    hide Rotl, Bit;
    RotlShifts(x);
    MovesBits1(x, i);
    BitIs(x, i);
    BitIs((x << 1) | (x >> 31), (i + 1) % 32);
  }

  lemma Moves5(x: bv32, i: bv32)
    requires i < 32
    ensures Bit(Rotl(x, 5), (i + 5) % 32) <==> Bit(x, i)
  {
    hide Rotl, Bit;
    RotlShifts(x);
    MovesBits5(x, i);
    BitIs(x, i);
    BitIs((x << 5) | (x >> 27), (i + 5) % 32);
  }

  lemma Moves30(x: bv32, i: bv32)
    requires i < 32
    ensures Bit(Rotl(x, 30), (i + 30) % 32) <==> Bit(x, i)
  {
    hide Rotl, Bit;
    RotlShifts(x);
    MovesBits30(x, i);
    BitIs(x, i);
    BitIs((x << 30) | (x >> 2), (i + 30) % 32);
  }

  lemma RotlShifts(x: bv32)
    ensures Rotl(x, 1) == (x << 1) | (x >> 31)
    ensures Rotl(x, 5) == (x << 5) | (x >> 27)
    ensures Rotl(x, 30) == (x << 30) | (x >> 2)
  {
  }

  lemma MovesBits1(x: bv32, i: bv32)
    requires i < 32
    ensures (((x << 1) | (x >> 31)) >> ((i + 1) % 32)) & 1 == (x >> i) & 1
  {
  }

  lemma MovesBits5(x: bv32, i: bv32)
    requires i < 32
    ensures (((x << 5) | (x >> 27)) >> ((i + 5) % 32)) & 1 == (x >> i) & 1
  {
  }

  lemma MovesBits30(x: bv32, i: bv32)
    requires i < 32
    ensures (((x << 30) | (x >> 2)) >> ((i + 30) % 32)) & 1 == (x >> i) & 1
  {
  }

  /** The four-term exclusive or is the parity of four bits, place by place. */
  lemma Xor4IsParity(p: bv32, q: bv32, r: bv32, s: bv32, i: bv32)
    requires i < 32
    ensures Bit(Xor4(p, q, r, s), i) <==> ((Bit(p, i) != Bit(q, i)) != (Bit(r, i) != Bit(s, i)))
  {
    hide Bit;
    XorBits(p, q, r, s, i);
    BitIs(p, i);
    BitIs(q, i);
    BitIs(r, i);
    BitIs(s, i);
    BitIs(p ^ q ^ r ^ s, i);
  }

  lemma XorBits(p: bv32, q: bv32, r: bv32, s: bv32, i: bv32)
    requires i < 32
    ensures ((p ^ q ^ r ^ s) >> i) & 1 == 1 <==>
      (((p >> i) & 1 == 1) != ((q >> i) & 1 == 1)) != (((r >> i) & 1 == 1) != ((s >> i) & 1 == 1))
  {
  }

  /** The round constants are 2^30 times the square roots of 2, 3, 5 and 10, rounded down. */
  lemma KtIsRoot(t: nat)
    requires t < 80
    ensures var k, q := Kt(t) as int, if t < 20 then 2 else if t < 40 then 3 else if t < 60 then 5 else 10;
      k * k <= q * 0x1000_0000_0000_0000 < (k + 1) * (k + 1)
  {
    KtNumbers(t);
  }

  lemma KtNumbers(t: nat)
    ensures Kt(t) as int == if t < 20 then 0x5A827999 else if t < 40 then 0x6ED9EBA1 else if t < 60 then 0x8F1BBCDC
                            else 0xCA62C1D6
  {
  }

  /** The initial value, its first four words in memory order of a little-endian machine: 01 23 ... EF FE ... 10. */
  lemma InitialValueBytes()
    ensures |IV| == 5
    ensures Le32(IV[0]) + Le32(IV[1]) == [0x01, 0x23, 0x45, 0x67, 0x89, 0xAB, 0xCD, 0xEF]
    ensures Le32(IV[2]) + Le32(IV[3]) == [0xFE, 0xDC, 0xBA, 0x98, 0x76, 0x54, 0x32, 0x10]
    ensures Le32(IV[4]) == [0xF0, 0xE1, 0xD2, 0xC3]
  {
  }

  /** The words of a block are its bytes, most significant first, in order. */
  lemma BlockWordsAre(block: seq<Byte>, i: nat)
    requires |block| == 64 && i < 16
    ensures Number(BlockWords(block)[i]) ==
      ((block[4 * i] as int * 256 + block[4 * i + 1]) * 256 + block[4 * i + 2]) * 256 + block[4 * i + 3]
  {
    hide WordOfBytes, Number;
    WordAsInt(block[4 * i..4 * i + 4]);
  }

  lemma WordAsInt(b: seq<Byte>)
    requires |b| == 4
    ensures Number(WordOfBytes(b)) == ((b[0] as int * 256 + b[1]) * 256 + b[2]) * 256 + b[3]
  {
    hide Horner, Word, Number;
    SameNumber(FromBe32(b));
    HornerIs(b[0], b[1], b[2], b[3]);
  }

  lemma HornerIs(a: int, b: int, c: int, d: int)
    ensures Horner(a, b, c, d) == ((a * 256 + b) * 256 + c) * 256 + d
  {
  }

  /** A 32-bit number and its word are the same number: every number is that of some word, built bit by bit. */
  lemma SameNumber(x: U32)
    ensures Number(Word(x)) == x
  {
    hide Word, Number;
    var w := WordOf(x);
    WordBack(w);
  }

  lemma WordBack(w: bv32)
    ensures Word(Number(w)) == w
  {
  }

  lemma {:induction false} WordOf(x: nat) returns (w: bv32)
    requires x < 0x1_0000_0000
    ensures Number(w) == x
  {
    hide Number;
    w := 0;
    if x == 0 {
      ZeroIsZero();
    } else {
      var half := WordOf(x / 2);
      w := half << 1;
      ShiftDoubles(half);
      if x % 2 == 1 {
        w := (half << 1) | 1;
        ShiftDoublesPlusOne(half);
      }
    }
  }

  lemma ZeroIsZero()
    ensures Number(0) == 0
  {
  }

  lemma ShiftDoubles(w: bv32)
    requires Number(w) < 0x8000_0000
    ensures Number(w << 1) == 2 * Number(w)
  {
  }

  lemma ShiftDoublesPlusOne(w: bv32)
    requires Number(w) < 0x8000_0000
    ensures Number((w << 1) | 1) == 2 * Number(w) + 1
  {
  }

  /** The working variables a, ..., e are the words of the chaining value in order, before and after. */
  lemma VarsInOrder(v: seq<U32>, r: Vars)
    requires |v| == 5
    ensures var x := VarsOf(v);
      [Number(x.a), Number(x.b), Number(x.c), Number(x.d), Number(x.e)] == v
    ensures WordsOf(r) == [Number(r.a), Number(r.b), Number(r.c), Number(r.d), Number(r.e)]
  {
    hide Word, Number;
    SameNumber(v[0]);
    SameNumber(v[1]);
    SameNumber(v[2]);
    SameNumber(v[3]);
    SameNumber(v[4]);
  }

  // ----- the macros of sha1.c -----

  const K1: bv32 := 0x5A827999
  const K2: bv32 := 0x6ED9EBA1
  const K3: bv32 := 0x8F1BBCDC
  const K4: bv32 := 0xCA62C1D6

  function F(b: bv32, c: bv32, d: bv32): bv32 {
    ((c ^ d) & b) ^ d
  }

  function G(b: bv32, c: bv32, d: bv32): bv32 {
    b ^ c ^ d
  }

  function H(b: bv32, c: bv32, d: bv32): bv32 {
    (d & c) | ((d | c) & b)
  }

  /** SPH_T32 of the code's sum, which adds the schedule word before the constant. */
  function T32(x: bv32, f: bv32, e: bv32, w: bv32, k: bv32): bv32 {
    x + f + e + w + k
  }

  lemma SumOrder(x: bv32, f: bv32, e: bv32, w: bv32, k: bv32)
    ensures T32(x, f, e, w, k) == Add5(x, f, e, k, w)
  {
  }

  lemma ChooseBits(b: bv32, c: bv32, d: bv32)
    ensures ((c ^ d) & b) ^ d == (b & c) ^ (!b & d)
  {
  }

  lemma MajorityBits(b: bv32, c: bv32, d: bv32)
    ensures (d & c) | ((d | c) & b) == (b & c) ^ (b & d) ^ (c & d)
  {
  }

  lemma FIsCh(b: bv32, c: bv32, d: bv32)
    ensures F(b, c, d) == Ch(b, c, d)
  {
    ChooseBits(b, c, d);
  }

  lemma GIsParity(b: bv32, c: bv32, d: bv32)
    ensures G(b, c, d) == Parity(b, c, d)
  {
  }

  lemma HIsMaj(b: bv32, c: bv32, d: bv32)
    ensures H(b, c, d) == Maj(b, c, d)
  {
    MajorityBits(b, c, d);
  }

  lemma RunAt(trace: seq<Vars>, w: seq<bv32>, t: nat)
    requires IsRun(trace, w) && t < 80
    ensures |w| == 80 && |trace| == 81 && trace[t + 1] == Round(t, trace[t], w[t])
  {
    assert Step(trace, w, t);
  }

  lemma PhaseIs(t: nat, x: bv32, y: bv32, z: bv32)
    ensures t < 20 ==> Ft(t, x, y, z) == Ch(x, y, z) && Kt(t) == K1
    ensures 20 <= t < 40 ==> Ft(t, x, y, z) == Parity(x, y, z) && Kt(t) == K2
    ensures 40 <= t < 60 ==> Ft(t, x, y, z) == Maj(x, y, z) && Kt(t) == K3
    ensures 60 <= t < 80 ==> Ft(t, x, y, z) == Parity(x, y, z) && Kt(t) == K4
  {
  }

  /** x is the schedule word t. */
  ghost predicate WordAt(w: seq<bv32>, t: int, x: bv32) {
    0 <= t < |w| && w[t] == x
  }

  /** The registers hold the working variables before round t. */
  ghost predicate VarsAt(trace: seq<Vars>, t: int, a: bv32, b: bv32, c: bv32, d: bv32, e: bv32) {
    0 <= t < |trace| && trace[t] == Vars(a, b, c, d, e)
  }

  /** The first words are the block itself. */
  lemma Start(block: seq<bv32>, v: Vars)
    requires |block| == 16
    ensures var w := Schedule(block); var trace := Run([v], w);
      IsSchedule(w) && IsRun(trace, w) && VarsAt(trace, 0, v.a, v.b, v.c, v.d, v.e)
      && (forall t :: 0 <= t < 16 ==> WordAt(w, t, block[t]))
  {
  }

  lemma Finish(block: seq<bv32>, v: Vars, a: bv32, b: bv32, c: bv32, d: bv32, e: bv32)
    requires |block| == 16 && VarsAt(Run([v], Schedule(block)), 80, a, b, c, d, e)
    ensures CompressVars(block, v) == AddVars(v, Vars(a, b, c, d, e))
  {
    hide AddVars;
  }

  lemma WordExpanded(w: seq<bv32>, t: int, p: bv32, q: bv32, r: bv32, s: bv32)
    requires IsSchedule(w) && 16 <= t < 80
    requires WordAt(w, t - 3, p) && WordAt(w, t - 8, q) && WordAt(w, t - 14, r) && WordAt(w, t - 16, s)
    ensures WordAt(w, t, Rotl(Xor4(p, q, r, s), 1))
  {
    assert Scheduled(w, t);
  }

  lemma NextVars(trace: seq<Vars>, w: seq<bv32>, t: int, v: Vars, x: bv32, f: bv32, k: bv32)
    requires IsRun(trace, w) && 0 <= t < 80 && VarsAt(trace, t, v.a, v.b, v.c, v.d, v.e) && WordAt(w, t, x)
    requires f == Ft(t, v.b, v.c, v.d) && k == Kt(t)
    ensures VarsAt(trace, t + 1, Add5(Rotl(v.a, 5), f, v.e, k, x), v.a, Rotl(v.b, 30), v.c, v.d)
  {
    hide Add5, Rotl, Ft, Kt;
    RunAt(trace, w, t);
  }

  lemma NextF(trace: seq<Vars>, w: seq<bv32>, t: int, a: bv32, b: bv32, c: bv32, d: bv32, e: bv32, x: bv32)
    requires IsRun(trace, w) && 0 <= t < 20 && VarsAt(trace, t, a, b, c, d, e) && WordAt(w, t, x)
    ensures VarsAt(trace, t + 1, T32(Rotl(a, 5), F(b, c, d), e, x, K1), a, Rotl(b, 30), c, d)
  {
    hide *;
    FIsCh(b, c, d);
    SumOrder(Rotl(a, 5), F(b, c, d), e, x, K1);
    PhaseIs(t, b, c, d);
    NextVars(trace, w, t, Vars(a, b, c, d, e), x, F(b, c, d), K1);
  }

  lemma NextG(trace: seq<Vars>, w: seq<bv32>, t: int, a: bv32, b: bv32, c: bv32, d: bv32, e: bv32, x: bv32)
    requires IsRun(trace, w) && 20 <= t < 40 && VarsAt(trace, t, a, b, c, d, e) && WordAt(w, t, x)
    ensures VarsAt(trace, t + 1, T32(Rotl(a, 5), G(b, c, d), e, x, K2), a, Rotl(b, 30), c, d)
  {
    hide *;
    GIsParity(b, c, d);
    SumOrder(Rotl(a, 5), G(b, c, d), e, x, K2);
    PhaseIs(t, b, c, d);
    NextVars(trace, w, t, Vars(a, b, c, d, e), x, G(b, c, d), K2);
  }

  lemma NextH(trace: seq<Vars>, w: seq<bv32>, t: int, a: bv32, b: bv32, c: bv32, d: bv32, e: bv32, x: bv32)
    requires IsRun(trace, w) && 40 <= t < 60 && VarsAt(trace, t, a, b, c, d, e) && WordAt(w, t, x)
    ensures VarsAt(trace, t + 1, T32(Rotl(a, 5), H(b, c, d), e, x, K3), a, Rotl(b, 30), c, d)
  {
    hide *;
    HIsMaj(b, c, d);
    SumOrder(Rotl(a, 5), H(b, c, d), e, x, K3);
    PhaseIs(t, b, c, d);
    NextVars(trace, w, t, Vars(a, b, c, d, e), x, H(b, c, d), K3);
  }

  lemma NextI(trace: seq<Vars>, w: seq<bv32>, t: int, a: bv32, b: bv32, c: bv32, d: bv32, e: bv32, x: bv32)
    requires IsRun(trace, w) && 60 <= t < 80 && VarsAt(trace, t, a, b, c, d, e) && WordAt(w, t, x)
    ensures VarsAt(trace, t + 1, T32(Rotl(a, 5), G(b, c, d), e, x, K4), a, Rotl(b, 30), c, d)
  {
    hide *;
    GIsParity(b, c, d);
    SumOrder(Rotl(a, 5), G(b, c, d), e, x, K4);
    PhaseIs(t, b, c, d);
    NextVars(trace, w, t, Vars(a, b, c, d, e), x, G(b, c, d), K4);
  }


  /** The eighty rounds of SHA1_ROUND_BODY as written, on five rotating registers and sixteen circular words. */
  method Rounds(msg: seq<bv32>, v: Vars) returns (A: bv32, B: bv32, C: bv32, D: bv32, E: bv32)
    requires |msg| == 16
    ensures CompressVars(msg, v) == AddVars(v, Vars(A, B, C, D, E))
  {
    hide *;
    ghost var w := Schedule(msg);
    ghost var trace := Run([v], w);
    Start(msg, v);
    A, B, C, D, E := v.a, v.b, v.c, v.d, v.e;
    var W00, W01, W02, W03, W04, W05, W06, W07, W08, W09, W10, W11, W12, W13, W14, W15;
    W00 := msg[0];
    NextF(trace, w, 0, A, B, C, D, E, W00);
    E := T32(Rotl(A, 5), F(B, C, D), E, W00, K1);
    B := Rotl(B, 30);
    W01 := msg[1];
    NextF(trace, w, 1, E, A, B, C, D, W01);
    D := T32(Rotl(E, 5), F(A, B, C), D, W01, K1);
    A := Rotl(A, 30);
    W02 := msg[2];
    NextF(trace, w, 2, D, E, A, B, C, W02);
    C := T32(Rotl(D, 5), F(E, A, B), C, W02, K1);
    E := Rotl(E, 30);
    W03 := msg[3];
    NextF(trace, w, 3, C, D, E, A, B, W03);
    B := T32(Rotl(C, 5), F(D, E, A), B, W03, K1);
    D := Rotl(D, 30);
    W04 := msg[4];
    NextF(trace, w, 4, B, C, D, E, A, W04);
    A := T32(Rotl(B, 5), F(C, D, E), A, W04, K1);
    C := Rotl(C, 30);
    W05 := msg[5];
    NextF(trace, w, 5, A, B, C, D, E, W05);
    E := T32(Rotl(A, 5), F(B, C, D), E, W05, K1);
    B := Rotl(B, 30);
    W06 := msg[6];
    NextF(trace, w, 6, E, A, B, C, D, W06);
    D := T32(Rotl(E, 5), F(A, B, C), D, W06, K1);
    A := Rotl(A, 30);
    W07 := msg[7];
    NextF(trace, w, 7, D, E, A, B, C, W07);
    C := T32(Rotl(D, 5), F(E, A, B), C, W07, K1);
    E := Rotl(E, 30);
    W08 := msg[8];
    NextF(trace, w, 8, C, D, E, A, B, W08);
    B := T32(Rotl(C, 5), F(D, E, A), B, W08, K1);
    D := Rotl(D, 30);
    W09 := msg[9];
    NextF(trace, w, 9, B, C, D, E, A, W09);
    A := T32(Rotl(B, 5), F(C, D, E), A, W09, K1);
    C := Rotl(C, 30);
    W10 := msg[10];
    NextF(trace, w, 10, A, B, C, D, E, W10);
    E := T32(Rotl(A, 5), F(B, C, D), E, W10, K1);
    B := Rotl(B, 30);
    W11 := msg[11];
    NextF(trace, w, 11, E, A, B, C, D, W11);
    D := T32(Rotl(E, 5), F(A, B, C), D, W11, K1);
    A := Rotl(A, 30);
    W12 := msg[12];
    NextF(trace, w, 12, D, E, A, B, C, W12);
    C := T32(Rotl(D, 5), F(E, A, B), C, W12, K1);
    E := Rotl(E, 30);
    W13 := msg[13];
    NextF(trace, w, 13, C, D, E, A, B, W13);
    B := T32(Rotl(C, 5), F(D, E, A), B, W13, K1);
    D := Rotl(D, 30);
    W14 := msg[14];
    NextF(trace, w, 14, B, C, D, E, A, W14);
    A := T32(Rotl(B, 5), F(C, D, E), A, W14, K1);
    C := Rotl(C, 30);
    W15 := msg[15];
    NextF(trace, w, 15, A, B, C, D, E, W15);
    E := T32(Rotl(A, 5), F(B, C, D), E, W15, K1);
    B := Rotl(B, 30);
    WordExpanded(w, 16, W13, W08, W02, W00);
    W00 := Rotl(Xor4(W13, W08, W02, W00), 1);
    NextF(trace, w, 16, E, A, B, C, D, W00);
    D := T32(Rotl(E, 5), F(A, B, C), D, W00, K1);
    A := Rotl(A, 30);
    WordExpanded(w, 17, W14, W09, W03, W01);
    W01 := Rotl(Xor4(W14, W09, W03, W01), 1);
    NextF(trace, w, 17, D, E, A, B, C, W01);
    C := T32(Rotl(D, 5), F(E, A, B), C, W01, K1);
    E := Rotl(E, 30);
    WordExpanded(w, 18, W15, W10, W04, W02);
    W02 := Rotl(Xor4(W15, W10, W04, W02), 1);
    NextF(trace, w, 18, C, D, E, A, B, W02);
    B := T32(Rotl(C, 5), F(D, E, A), B, W02, K1);
    D := Rotl(D, 30);
    WordExpanded(w, 19, W00, W11, W05, W03);
    W03 := Rotl(Xor4(W00, W11, W05, W03), 1);
    NextF(trace, w, 19, B, C, D, E, A, W03);
    A := T32(Rotl(B, 5), F(C, D, E), A, W03, K1);
    C := Rotl(C, 30);
    WordExpanded(w, 20, W01, W12, W06, W04);
    W04 := Rotl(Xor4(W01, W12, W06, W04), 1);
    NextG(trace, w, 20, A, B, C, D, E, W04);
    E := T32(Rotl(A, 5), G(B, C, D), E, W04, K2);
    B := Rotl(B, 30);
    WordExpanded(w, 21, W02, W13, W07, W05);
    W05 := Rotl(Xor4(W02, W13, W07, W05), 1);
    NextG(trace, w, 21, E, A, B, C, D, W05);
    D := T32(Rotl(E, 5), G(A, B, C), D, W05, K2);
    A := Rotl(A, 30);
    WordExpanded(w, 22, W03, W14, W08, W06);
    W06 := Rotl(Xor4(W03, W14, W08, W06), 1);
    NextG(trace, w, 22, D, E, A, B, C, W06);
    C := T32(Rotl(D, 5), G(E, A, B), C, W06, K2);
    E := Rotl(E, 30);
    WordExpanded(w, 23, W04, W15, W09, W07);
    W07 := Rotl(Xor4(W04, W15, W09, W07), 1);
    NextG(trace, w, 23, C, D, E, A, B, W07);
    B := T32(Rotl(C, 5), G(D, E, A), B, W07, K2);
    D := Rotl(D, 30);
    WordExpanded(w, 24, W05, W00, W10, W08);
    W08 := Rotl(Xor4(W05, W00, W10, W08), 1);
    NextG(trace, w, 24, B, C, D, E, A, W08);
    A := T32(Rotl(B, 5), G(C, D, E), A, W08, K2);
    C := Rotl(C, 30);
    WordExpanded(w, 25, W06, W01, W11, W09);
    W09 := Rotl(Xor4(W06, W01, W11, W09), 1);
    NextG(trace, w, 25, A, B, C, D, E, W09);
    E := T32(Rotl(A, 5), G(B, C, D), E, W09, K2);
    B := Rotl(B, 30);
    WordExpanded(w, 26, W07, W02, W12, W10);
    W10 := Rotl(Xor4(W07, W02, W12, W10), 1);
    NextG(trace, w, 26, E, A, B, C, D, W10);
    D := T32(Rotl(E, 5), G(A, B, C), D, W10, K2);
    A := Rotl(A, 30);
    WordExpanded(w, 27, W08, W03, W13, W11);
    W11 := Rotl(Xor4(W08, W03, W13, W11), 1);
    NextG(trace, w, 27, D, E, A, B, C, W11);
    C := T32(Rotl(D, 5), G(E, A, B), C, W11, K2);
    E := Rotl(E, 30);
    WordExpanded(w, 28, W09, W04, W14, W12);
    W12 := Rotl(Xor4(W09, W04, W14, W12), 1);
    NextG(trace, w, 28, C, D, E, A, B, W12);
    B := T32(Rotl(C, 5), G(D, E, A), B, W12, K2);
    D := Rotl(D, 30);
    WordExpanded(w, 29, W10, W05, W15, W13);
    W13 := Rotl(Xor4(W10, W05, W15, W13), 1);
    NextG(trace, w, 29, B, C, D, E, A, W13);
    A := T32(Rotl(B, 5), G(C, D, E), A, W13, K2);
    C := Rotl(C, 30);
    WordExpanded(w, 30, W11, W06, W00, W14);
    W14 := Rotl(Xor4(W11, W06, W00, W14), 1);
    NextG(trace, w, 30, A, B, C, D, E, W14);
    E := T32(Rotl(A, 5), G(B, C, D), E, W14, K2);
    B := Rotl(B, 30);
    WordExpanded(w, 31, W12, W07, W01, W15);
    W15 := Rotl(Xor4(W12, W07, W01, W15), 1);
    NextG(trace, w, 31, E, A, B, C, D, W15);
    D := T32(Rotl(E, 5), G(A, B, C), D, W15, K2);
    A := Rotl(A, 30);
    WordExpanded(w, 32, W13, W08, W02, W00);
    W00 := Rotl(Xor4(W13, W08, W02, W00), 1);
    NextG(trace, w, 32, D, E, A, B, C, W00);
    C := T32(Rotl(D, 5), G(E, A, B), C, W00, K2);
    E := Rotl(E, 30);
    WordExpanded(w, 33, W14, W09, W03, W01);
    W01 := Rotl(Xor4(W14, W09, W03, W01), 1);
    NextG(trace, w, 33, C, D, E, A, B, W01);
    B := T32(Rotl(C, 5), G(D, E, A), B, W01, K2);
    D := Rotl(D, 30);
    WordExpanded(w, 34, W15, W10, W04, W02);
    W02 := Rotl(Xor4(W15, W10, W04, W02), 1);
    NextG(trace, w, 34, B, C, D, E, A, W02);
    A := T32(Rotl(B, 5), G(C, D, E), A, W02, K2);
    C := Rotl(C, 30);
    WordExpanded(w, 35, W00, W11, W05, W03);
    W03 := Rotl(Xor4(W00, W11, W05, W03), 1);
    NextG(trace, w, 35, A, B, C, D, E, W03);
    E := T32(Rotl(A, 5), G(B, C, D), E, W03, K2);
    B := Rotl(B, 30);
    WordExpanded(w, 36, W01, W12, W06, W04);
    W04 := Rotl(Xor4(W01, W12, W06, W04), 1);
    NextG(trace, w, 36, E, A, B, C, D, W04);
    D := T32(Rotl(E, 5), G(A, B, C), D, W04, K2);
    A := Rotl(A, 30);
    WordExpanded(w, 37, W02, W13, W07, W05);
    W05 := Rotl(Xor4(W02, W13, W07, W05), 1);
    NextG(trace, w, 37, D, E, A, B, C, W05);
    C := T32(Rotl(D, 5), G(E, A, B), C, W05, K2);
    E := Rotl(E, 30);
    WordExpanded(w, 38, W03, W14, W08, W06);
    W06 := Rotl(Xor4(W03, W14, W08, W06), 1);
    NextG(trace, w, 38, C, D, E, A, B, W06);
    B := T32(Rotl(C, 5), G(D, E, A), B, W06, K2);
    D := Rotl(D, 30);
    WordExpanded(w, 39, W04, W15, W09, W07);
    W07 := Rotl(Xor4(W04, W15, W09, W07), 1);
    NextG(trace, w, 39, B, C, D, E, A, W07);
    A := T32(Rotl(B, 5), G(C, D, E), A, W07, K2);
    C := Rotl(C, 30);
    WordExpanded(w, 40, W05, W00, W10, W08);
    W08 := Rotl(Xor4(W05, W00, W10, W08), 1);
    NextH(trace, w, 40, A, B, C, D, E, W08);
    E := T32(Rotl(A, 5), H(B, C, D), E, W08, K3);
    B := Rotl(B, 30);
    WordExpanded(w, 41, W06, W01, W11, W09);
    W09 := Rotl(Xor4(W06, W01, W11, W09), 1);
    NextH(trace, w, 41, E, A, B, C, D, W09);
    D := T32(Rotl(E, 5), H(A, B, C), D, W09, K3);
    A := Rotl(A, 30);
    WordExpanded(w, 42, W07, W02, W12, W10);
    W10 := Rotl(Xor4(W07, W02, W12, W10), 1);
    NextH(trace, w, 42, D, E, A, B, C, W10);
    C := T32(Rotl(D, 5), H(E, A, B), C, W10, K3);
    E := Rotl(E, 30);
    WordExpanded(w, 43, W08, W03, W13, W11);
    W11 := Rotl(Xor4(W08, W03, W13, W11), 1);
    NextH(trace, w, 43, C, D, E, A, B, W11);
    B := T32(Rotl(C, 5), H(D, E, A), B, W11, K3);
    D := Rotl(D, 30);
    WordExpanded(w, 44, W09, W04, W14, W12);
    W12 := Rotl(Xor4(W09, W04, W14, W12), 1);
    NextH(trace, w, 44, B, C, D, E, A, W12);
    A := T32(Rotl(B, 5), H(C, D, E), A, W12, K3);
    C := Rotl(C, 30);
    WordExpanded(w, 45, W10, W05, W15, W13);
    W13 := Rotl(Xor4(W10, W05, W15, W13), 1);
    NextH(trace, w, 45, A, B, C, D, E, W13);
    E := T32(Rotl(A, 5), H(B, C, D), E, W13, K3);
    B := Rotl(B, 30);
    WordExpanded(w, 46, W11, W06, W00, W14);
    W14 := Rotl(Xor4(W11, W06, W00, W14), 1);
    NextH(trace, w, 46, E, A, B, C, D, W14);
    D := T32(Rotl(E, 5), H(A, B, C), D, W14, K3);
    A := Rotl(A, 30);
    WordExpanded(w, 47, W12, W07, W01, W15);
    W15 := Rotl(Xor4(W12, W07, W01, W15), 1);
    NextH(trace, w, 47, D, E, A, B, C, W15);
    C := T32(Rotl(D, 5), H(E, A, B), C, W15, K3);
    E := Rotl(E, 30);
    WordExpanded(w, 48, W13, W08, W02, W00);
    W00 := Rotl(Xor4(W13, W08, W02, W00), 1);
    NextH(trace, w, 48, C, D, E, A, B, W00);
    B := T32(Rotl(C, 5), H(D, E, A), B, W00, K3);
    D := Rotl(D, 30);
    WordExpanded(w, 49, W14, W09, W03, W01);
    W01 := Rotl(Xor4(W14, W09, W03, W01), 1);
    NextH(trace, w, 49, B, C, D, E, A, W01);
    A := T32(Rotl(B, 5), H(C, D, E), A, W01, K3);
    C := Rotl(C, 30);
    WordExpanded(w, 50, W15, W10, W04, W02);
    W02 := Rotl(Xor4(W15, W10, W04, W02), 1);
    NextH(trace, w, 50, A, B, C, D, E, W02);
    E := T32(Rotl(A, 5), H(B, C, D), E, W02, K3);
    B := Rotl(B, 30);
    WordExpanded(w, 51, W00, W11, W05, W03);
    W03 := Rotl(Xor4(W00, W11, W05, W03), 1);
    NextH(trace, w, 51, E, A, B, C, D, W03);
    D := T32(Rotl(E, 5), H(A, B, C), D, W03, K3);
    A := Rotl(A, 30);
    WordExpanded(w, 52, W01, W12, W06, W04);
    W04 := Rotl(Xor4(W01, W12, W06, W04), 1);
    NextH(trace, w, 52, D, E, A, B, C, W04);
    C := T32(Rotl(D, 5), H(E, A, B), C, W04, K3);
    E := Rotl(E, 30);
    WordExpanded(w, 53, W02, W13, W07, W05);
    W05 := Rotl(Xor4(W02, W13, W07, W05), 1);
    NextH(trace, w, 53, C, D, E, A, B, W05);
    B := T32(Rotl(C, 5), H(D, E, A), B, W05, K3);
    D := Rotl(D, 30);
    WordExpanded(w, 54, W03, W14, W08, W06);
    W06 := Rotl(Xor4(W03, W14, W08, W06), 1);
    NextH(trace, w, 54, B, C, D, E, A, W06);
    A := T32(Rotl(B, 5), H(C, D, E), A, W06, K3);
    C := Rotl(C, 30);
    WordExpanded(w, 55, W04, W15, W09, W07);
    W07 := Rotl(Xor4(W04, W15, W09, W07), 1);
    NextH(trace, w, 55, A, B, C, D, E, W07);
    E := T32(Rotl(A, 5), H(B, C, D), E, W07, K3);
    B := Rotl(B, 30);
    WordExpanded(w, 56, W05, W00, W10, W08);
    W08 := Rotl(Xor4(W05, W00, W10, W08), 1);
    NextH(trace, w, 56, E, A, B, C, D, W08);
    D := T32(Rotl(E, 5), H(A, B, C), D, W08, K3);
    A := Rotl(A, 30);
    WordExpanded(w, 57, W06, W01, W11, W09);
    W09 := Rotl(Xor4(W06, W01, W11, W09), 1);
    NextH(trace, w, 57, D, E, A, B, C, W09);
    C := T32(Rotl(D, 5), H(E, A, B), C, W09, K3);
    E := Rotl(E, 30);
    WordExpanded(w, 58, W07, W02, W12, W10);
    W10 := Rotl(Xor4(W07, W02, W12, W10), 1);
    NextH(trace, w, 58, C, D, E, A, B, W10);
    B := T32(Rotl(C, 5), H(D, E, A), B, W10, K3);
    D := Rotl(D, 30);
    WordExpanded(w, 59, W08, W03, W13, W11);
    W11 := Rotl(Xor4(W08, W03, W13, W11), 1);
    NextH(trace, w, 59, B, C, D, E, A, W11);
    A := T32(Rotl(B, 5), H(C, D, E), A, W11, K3);
    C := Rotl(C, 30);
    WordExpanded(w, 60, W09, W04, W14, W12);
    W12 := Rotl(Xor4(W09, W04, W14, W12), 1);
    NextI(trace, w, 60, A, B, C, D, E, W12);
    E := T32(Rotl(A, 5), G(B, C, D), E, W12, K4);
    B := Rotl(B, 30);
    WordExpanded(w, 61, W10, W05, W15, W13);
    W13 := Rotl(Xor4(W10, W05, W15, W13), 1);
    NextI(trace, w, 61, E, A, B, C, D, W13);
    D := T32(Rotl(E, 5), G(A, B, C), D, W13, K4);
    A := Rotl(A, 30);
    WordExpanded(w, 62, W11, W06, W00, W14);
    W14 := Rotl(Xor4(W11, W06, W00, W14), 1);
    NextI(trace, w, 62, D, E, A, B, C, W14);
    C := T32(Rotl(D, 5), G(E, A, B), C, W14, K4);
    E := Rotl(E, 30);
    WordExpanded(w, 63, W12, W07, W01, W15);
    W15 := Rotl(Xor4(W12, W07, W01, W15), 1);
    NextI(trace, w, 63, C, D, E, A, B, W15);
    B := T32(Rotl(C, 5), G(D, E, A), B, W15, K4);
    D := Rotl(D, 30);
    WordExpanded(w, 64, W13, W08, W02, W00);
    W00 := Rotl(Xor4(W13, W08, W02, W00), 1);
    NextI(trace, w, 64, B, C, D, E, A, W00);
    A := T32(Rotl(B, 5), G(C, D, E), A, W00, K4);
    C := Rotl(C, 30);
    WordExpanded(w, 65, W14, W09, W03, W01);
    W01 := Rotl(Xor4(W14, W09, W03, W01), 1);
    NextI(trace, w, 65, A, B, C, D, E, W01);
    E := T32(Rotl(A, 5), G(B, C, D), E, W01, K4);
    B := Rotl(B, 30);
    WordExpanded(w, 66, W15, W10, W04, W02);
    W02 := Rotl(Xor4(W15, W10, W04, W02), 1);
    NextI(trace, w, 66, E, A, B, C, D, W02);
    D := T32(Rotl(E, 5), G(A, B, C), D, W02, K4);
    A := Rotl(A, 30);
    WordExpanded(w, 67, W00, W11, W05, W03);
    W03 := Rotl(Xor4(W00, W11, W05, W03), 1);
    NextI(trace, w, 67, D, E, A, B, C, W03);
    C := T32(Rotl(D, 5), G(E, A, B), C, W03, K4);
    E := Rotl(E, 30);
    WordExpanded(w, 68, W01, W12, W06, W04);
    W04 := Rotl(Xor4(W01, W12, W06, W04), 1);
    NextI(trace, w, 68, C, D, E, A, B, W04);
    B := T32(Rotl(C, 5), G(D, E, A), B, W04, K4);
    D := Rotl(D, 30);
    WordExpanded(w, 69, W02, W13, W07, W05);
    W05 := Rotl(Xor4(W02, W13, W07, W05), 1);
    NextI(trace, w, 69, B, C, D, E, A, W05);
    A := T32(Rotl(B, 5), G(C, D, E), A, W05, K4);
    C := Rotl(C, 30);
    WordExpanded(w, 70, W03, W14, W08, W06);
    W06 := Rotl(Xor4(W03, W14, W08, W06), 1);
    NextI(trace, w, 70, A, B, C, D, E, W06);
    E := T32(Rotl(A, 5), G(B, C, D), E, W06, K4);
    B := Rotl(B, 30);
    WordExpanded(w, 71, W04, W15, W09, W07);
    W07 := Rotl(Xor4(W04, W15, W09, W07), 1);
    NextI(trace, w, 71, E, A, B, C, D, W07);
    D := T32(Rotl(E, 5), G(A, B, C), D, W07, K4);
    A := Rotl(A, 30);
    WordExpanded(w, 72, W05, W00, W10, W08);
    W08 := Rotl(Xor4(W05, W00, W10, W08), 1);
    NextI(trace, w, 72, D, E, A, B, C, W08);
    C := T32(Rotl(D, 5), G(E, A, B), C, W08, K4);
    E := Rotl(E, 30);
    WordExpanded(w, 73, W06, W01, W11, W09);
    W09 := Rotl(Xor4(W06, W01, W11, W09), 1);
    NextI(trace, w, 73, C, D, E, A, B, W09);
    B := T32(Rotl(C, 5), G(D, E, A), B, W09, K4);
    D := Rotl(D, 30);
    WordExpanded(w, 74, W07, W02, W12, W10);
    W10 := Rotl(Xor4(W07, W02, W12, W10), 1);
    NextI(trace, w, 74, B, C, D, E, A, W10);
    A := T32(Rotl(B, 5), G(C, D, E), A, W10, K4);
    C := Rotl(C, 30);
    WordExpanded(w, 75, W08, W03, W13, W11);
    W11 := Rotl(Xor4(W08, W03, W13, W11), 1);
    NextI(trace, w, 75, A, B, C, D, E, W11);
    E := T32(Rotl(A, 5), G(B, C, D), E, W11, K4);
    B := Rotl(B, 30);
    WordExpanded(w, 76, W09, W04, W14, W12);
    W12 := Rotl(Xor4(W09, W04, W14, W12), 1);
    NextI(trace, w, 76, E, A, B, C, D, W12);
    D := T32(Rotl(E, 5), G(A, B, C), D, W12, K4);
    A := Rotl(A, 30);
    WordExpanded(w, 77, W10, W05, W15, W13);
    W13 := Rotl(Xor4(W10, W05, W15, W13), 1);
    NextI(trace, w, 77, D, E, A, B, C, W13);
    C := T32(Rotl(D, 5), G(E, A, B), C, W13, K4);
    E := Rotl(E, 30);
    WordExpanded(w, 78, W11, W06, W00, W14);
    W14 := Rotl(Xor4(W11, W06, W00, W14), 1);
    NextI(trace, w, 78, C, D, E, A, B, W14);
    B := T32(Rotl(C, 5), G(D, E, A), B, W14, K4);
    D := Rotl(D, 30);
    WordExpanded(w, 79, W12, W07, W01, W15);
    W15 := Rotl(Xor4(W12, W07, W01, W15), 1);
    NextI(trace, w, 79, B, C, D, E, A, W15);
    A := T32(Rotl(B, 5), G(C, D, E), A, W15, K4);
    C := Rotl(C, 30);
    Finish(msg, v, A, B, C, D, E);
  }

  /** SPH_T32 of a sum of two. */
  method Added(x: bv32, y: bv32) returns (sum: bv32)
    ensures sum == Plus(x, y)
  {
    sum := x + y;
  }

  /** SHA1_ROUND_BODY and sph_sha1_comp: the rounds, then the registers are added into r. */
  method RoundBody(msg: seq<bv32>, r: array<bv32>)
    requires |msg| == 16 && r.Length == 5
    modifies r
    ensures Vars(r[0], r[1], r[2], r[3], r[4]) == CompressVars(msg, old(Vars(r[0], r[1], r[2], r[3], r[4])))
  {
    hide *;
    ghost var v := Vars(r[0], r[1], r[2], r[3], r[4]);
    var A, B, C, D, E := Rounds(msg, Vars(r[0], r[1], r[2], r[3], r[4]));
    AddVarsIs(v, Vars(A, B, C, D, E));
    r[0] := Added(r[0], A);
    r[1] := Added(r[1], B);
    r[2] := Added(r[2], C);
    r[3] := Added(r[3], D);
    r[4] := Added(r[4], E);
  }

  lemma CompressIs(block: seq<Byte>, v: seq<U32>, x: Vars)
    requires |block| == 64 && |v| == 5 && x == CompressVars(BlockWords(block), VarsOf(v))
    ensures Compress(block, v) == WordsOf(x)
  {
  }

  /** sha1_round: decode the block, run the rounds, update the chaining value in place. */
  method RoundBytes(data: seq<Byte>, r: array<U32>)
    requires |data| == 64 && r.Length == 5
    modifies r
    ensures r[..] == Compress(data, old(r[..]))
  {
    hide *;
    var v := VarsOf(r[..]);
    var words := new bv32[5];
    words[0], words[1], words[2], words[3], words[4] := v.a, v.b, v.c, v.d, v.e;
    RoundBody(BlockWords(data), words);
    var x := Vars(words[0], words[1], words[2], words[3], words[4]);
    CompressIs(data, r[..], x);
    var next := WordsOf(x);
    forall i | 0 <= i < 5 {
      r[i] := next[i];
    }
    assert r[..] == next;
  }

  /** sph_sha1_full: the digest is the SHA-1 of FIPS 180-4, for every message. */
  method Full(msg: seq<Byte>, aligned: bool) returns (hash: array<Byte>)
    ensures hash.Length == 20 && hash[..] == DigestBytes(SHA1, msg)
  {
    Sha1KeepsWidth();
    hash := HashPieces(SHA1, [msg], [aligned], 5);
    assert [msg][..0] == [];
    assert Concat([msg]) == msg;
    var digest := Digest(SHA1, BitsOf(msg));
    assert digest[..5] == digest;
  }
}
