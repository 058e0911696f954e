/** Bytes, machine words and the few memory operations every other module uses.
    A word is an integer with an explicit range, so every wrap-around is written out. */
module Bytes {

  const MOD32 := 0x1_0000_0000
  const MOD64 := 0x1_0000_0000_0000_0000

  type Byte = x: int | 0 <= x < 256
  type U32 = x: int | 0 <= x < 0x1_0000_0000
  type U64 = x: int | 0 <= x < 0x1_0000_0000_0000_0000

  function Zeros(n: nat): (s: seq<Byte>)
    ensures |s| == n
    ensures forall i :: 0 <= i < n ==> s[i] == 0
  {
    seq(n, _ => 0)
  }

  lemma Multiples(z: int, k: int)
    requires z >= 0
    ensures k >= 1 ==> z * k >= z
    ensures k <= -1 ==> z * k <= -z
  {
    if k >= 1 {
      assert z * (k - 1) >= 0;
    } else if k <= -1 {
      assert z * (k + 1) <= 0;
    }
  }

  /** A quotient and a remainder in range are the ones that division finds. */
  lemma QuotientUnique(x: nat, z: nat, q: nat, r: nat)
    requires z > 0 && x == z * q + r && r < z
    ensures x / z == q && x % z == r
  {
    var k := x / z - q;
    assert z * k == r - x % z;
    Multiples(z, k);
  }

  /** The low k bytes of x, most significant first. */
  function NumberBytes(x: nat, k: nat): (s: seq<Byte>)
    ensures |s| == k
  {
    if k == 0 then [] else NumberBytes(x / 256, k - 1) + [x % 256]
  }

  function Be32(x: U32): (s: seq<Byte>)
    ensures |s| == 4
  {
    [x / 0x100_0000, x / 0x1_0000 % 256, x / 0x100 % 256, x % 256]
  }

  function Le32(x: U32): (s: seq<Byte>)
    ensures |s| == 4
  {
    [x % 256, x / 0x100 % 256, x / 0x1_0000 % 256, x / 0x100_0000]
  }

  /** Four base-256 digits, most significant first. */
  function Horner(a: int, b: int, c: int, d: int): int {
    ((a * 256 + b) * 256 + c) * 256 + d
  }

  function FromBe32(s: seq<Byte>): U32
    requires |s| == 4
  {
    Horner(s[0], s[1], s[2], s[3])
  }

  function FromLe32(s: seq<Byte>): U32
    requires |s| == 4
  {
    Horner(s[3], s[2], s[1], s[0])
  }

  /** bswap_32: the word whose little-endian bytes are x's big-endian bytes. */
  function Bswap32(x: U32): U32 {
    FromLe32(Be32(x))
  }

  function Reverse4(s: seq<Byte>): (r: seq<Byte>)
    requires |s| == 4
    ensures |r| == 4
  {
    [s[3], s[2], s[1], s[0]]
  }

  lemma DigitsOfWord(x: int)
    requires 0 <= x < MOD32
    ensures Horner(x / 0x100_0000, x / 0x1_0000 % 256, x / 0x100 % 256, x % 256) == x
  {
    assert x == x / 0x100 * 0x100 + x % 0x100;
    assert x / 0x100 / 0x100 == x / 0x1_0000;
    assert x / 0x1_0000 / 0x100 == x / 0x100_0000;
  }

  lemma DigitsOfHorner(a: int, b: int, c: int, d: int)
    requires 0 <= a < 256 && 0 <= b < 256 && 0 <= c < 256 && 0 <= d < 256
    ensures var x := Horner(a, b, c, d);
      x / 0x100_0000 == a && x / 0x1_0000 % 256 == b && x / 0x100 % 256 == c && x % 256 == d
  {
    var x := Horner(a, b, c, d);
    assert x / 0x100 == (a * 256 + b) * 256 + c;
    assert x / 0x1_0000 == a * 256 + b;
  }

  lemma WordsRoundTrip(x: U32)
    ensures FromBe32(Be32(x)) == x && FromLe32(Le32(x)) == x
    ensures Reverse4(Be32(x)) == Le32(x)
  {
    DigitsOfWord(x);
  }

  lemma BytesRoundTrip(s: seq<Byte>)
    requires |s| == 4
    ensures Be32(FromBe32(s)) == s && Le32(FromLe32(s)) == s
  {
    DigitsOfHorner(s[0], s[1], s[2], s[3]);
    DigitsOfHorner(s[3], s[2], s[1], s[0]);
  }

  lemma Bswap32Facts(x: U32)
    ensures Le32(Bswap32(x)) == Be32(x)
    ensures Be32(Bswap32(x)) == Le32(x)
    ensures Bswap32(Bswap32(x)) == x
  {
    BytesRoundTrip(Be32(x));
    WordsRoundTrip(x);
    WordsRoundTrip(Bswap32(x));
    assert Be32(Bswap32(x)) == Reverse4(Le32(Bswap32(x)));
  }

  /** The big-endian bytes of a sequence of words. */
  function Be32s(ws: seq<U32>): (s: seq<Byte>)
    ensures |s| == 4 * |ws|
  {
    if ws == [] then [] else Be32s(ws[..|ws| - 1]) + Be32(ws[|ws| - 1])
  }

  /** memcpy(dst + at, src, |src|) */
  method Memcpy(dst: array<Byte>, at: nat, src: seq<Byte>)
    requires at + |src| <= dst.Length
    modifies dst
    ensures dst[..] == old(dst[..at]) + src + old(dst[at + |src|..])
  {
    for i := 0 to |src|
      invariant dst[..] == old(dst[..at]) + src[..i] + old(dst[at + i..])
    {
      dst[at + i] := src[i];
    }
  }

  /** memset(dst + at, 0, n) */
  method ClearBytes(dst: array<Byte>, at: nat, n: nat)
    requires at + n <= dst.Length
    modifies dst
    ensures dst[..] == old(dst[..at]) + Zeros(n) + old(dst[at + n..])
  {
    for i := 0 to n
      invariant dst[..] == old(dst[..at]) + Zeros(i) + old(dst[at + i..])
    {
      dst[at + i] := 0;
    }
  }
}
