/** util.c and soj_protocol.c: the two computations of the network difficulty from the compact target,
    in exact arithmetic. */
module Nbits {
  import opened Bytes

  const MOD128: int := 0x1_0000_0000_0000_0000_0000_0000_0000_0000

  /** A quotient of a positive number by zero is the floating-point infinity. */
  datatype Diff = Finite(value: real) | Infinite

  function Exponent(n: U32): (s: nat)
    ensures s < 256
  {
    n / 0x100_0000
  }

  function Mantissa(n: U32): (m: nat)
    ensures m < 0x100_0000
  {
    n % 0x100_0000
  }

  function Power(k: nat): (p: real)
    ensures p > 0.0
  {
    if k == 0 then 1.0 else Times256(Power(k - 1))
  }

  function Times256(x: real): real {
    256.0 * x
  }

  function Shifted(x: nat, k: nat): nat {
    if k == 0 then x else ByteLeft(Shifted(x, k - 1))
  }

  function ByteLeft(x: nat): nat {
    256 * x
  }

  /** The difficulty-1 target 0xFFFF * 256^26 over the target m * 256^(s - 3), both scaled by 256^3. */
  function Difficulty(n: U32): real
    requires Mantissa(n) != 0
  {
    Quotient(Product(65535.0, Power(29)), Product(Mantissa(n) as real, Power(Exponent(n))))
  }

  /** What the iterated form yields: 0 for a zero mantissa. */
  function CleanDiff(n: U32): Diff {
    Finite(if Mantissa(n) == 0 then 0.0 else Difficulty(n))
  }

  /** What the shift form yields on the byte-swapped word: the slow branch multiplies and divides zero. */
  function FastDiff(nbits: U32): Diff {
    var n := Bswap32(nbits);
    if !(16 <= Exponent(n) <= 41) then Finite(0.0)
    else if Mantissa(n) == 0 then Infinite
    else Finite(Difficulty(n))
  }

  function Quotient(x: real, y: real): (q: real)
    requires y > 0.0
    ensures x > 0.0 ==> q > 0.0
  {
    x / y
  }

  function Product(x: real, y: real): (p: real)
    ensures x > 0.0 && y > 0.0 ==> p > 0.0
  {
    x * y
  }

  lemma QuotientIs(q: real, x: real, y: real)
    requires y > 0.0 && Product(q, y) == x
    ensures Quotient(x, y) == q
  {
  }

  lemma Assoc(x: real, y: real, z: real)
    ensures Product(Product(x, y), z) == Product(x, Product(y, z))
    ensures Product(x, y) == Product(y, x)
  {
  }

  lemma ProductOf256(x: real, y: real)
    ensures Product(Times256(x), y) == Times256(Product(x, y))
    ensures Product(x, Times256(y)) == Times256(Product(x, y))
  {
  }

  lemma {:induction false} PowerAdds(a: nat, b: nat)
    ensures Power(a + b) == Product(Power(a), Power(b))
  {
    if a > 0 {
      PowerAdds(a - 1, b);
      ProductOf256(Power(a - 1), Power(b));
    }
  }

  /** Scaling a quotient up. */
  lemma ScaledUp(q: real, m: real, a: real, b: real)
    requires m > 0.0 && b > 0.0 && a > 0.0 && Product(q, m) == 65535.0
    ensures Quotient(Product(65535.0, Product(a, b)), Product(m, b)) == Product(q, a)
  {
    hide Product, Quotient;
    Assoc(Product(q, a), m, b);
    Assoc(q, a, m);
    Assoc(a, m, 1.0);
    Assoc(q, m, a);
    Assoc(65535.0, a, b);
    assert Product(Product(q, a), m) == Product(65535.0, a);
    QuotientIs(Product(q, a), Product(65535.0, Product(a, b)), Product(m, b));
  }

  /** Scaling a quotient down. */
  lemma ScaledDown(q: real, m: real, a: real, b: real)
    requires m > 0.0 && b > 0.0 && a > 0.0 && Product(Product(q, b), m) == 65535.0
    ensures Quotient(Product(65535.0, a), Product(m, Product(b, a))) == q
  {
    hide Product, Quotient;
    Assoc(q, b, m);
    Assoc(b, m, 1.0);
    Assoc(m, b, a);
    Assoc(q, Product(m, b), a);
    QuotientIs(q, Product(65535.0, a), Product(m, Product(b, a)));
  }

  lemma Quotients(x: real, m: real)
    requires m > 0.0
    ensures Product(Quotient(x, m), m) == x
  {
  }

  /** Below exponent 29 the difficulty is 65535 / m scaled up, above it scaled down. */
  lemma DifficultyUp(n: U32, q: real)
    requires Mantissa(n) != 0 && Exponent(n) <= 29 && Product(q, Mantissa(n) as real) == 65535.0
    ensures Difficulty(n) == Product(q, Power(29 - Exponent(n)))
  {
    hide Power, Product, Quotient, Mantissa, Exponent;
    var s := Exponent(n);
    PowerAdds(29 - s, s);
    ScaledUp(q, Mantissa(n) as real, Power(29 - s), Power(s));
  }

  lemma DifficultyDown(n: U32, q: real)
    requires Mantissa(n) != 0 && Exponent(n) >= 29
    requires Product(Product(q, Power(Exponent(n) - 29)), Mantissa(n) as real) == 65535.0
    ensures Difficulty(n) == q
  {
    hide Power, Product, Quotient, Mantissa, Exponent;
    var s := Exponent(n);
    PowerAdds(s - 29, 29);
    ScaledDown(q, Mantissa(n) as real, Power(29), Power(s - 29));
  }

  /** Exponent and mantissa are the top byte and the rest of the word. */
  lemma PartsOfWord(n: U32)
    ensures Exponent(n) * 0x100_0000 + Mantissa(n) == n && Mantissa(n) < 0x100_0000
  {
  }

  /** The difficulty times the mantissa times 256 to the exponent is 0xFFFF * 256^29. */
  lemma DifficultyIs(n: U32, mantissa: nat, exponent: nat)
    requires n == exponent * 0x100_0000 + mantissa && 0 < mantissa < 0x100_0000
    ensures Mantissa(n) == mantissa && Exponent(n) == exponent
    ensures Difficulty(n) * (mantissa as real * Power(exponent)) == 65535.0 * Power(29)
  {
    hide Power;
    QuotientTimes(65535.0 * Power(29), mantissa as real * Power(exponent));
  }

  lemma QuotientTimes(x: real, y: real)
    requires y > 0.0
    ensures Quotient(x, y) * y == x
  {
  }

  /** The compact target 0x1d00ffff is difficulty 1. */
  lemma DifficultyOne(n: U32)
    requires n == 0x1d00_ffff
    ensures Mantissa(n) != 0 && Difficulty(n) == 1.0
  {
    hide Difficulty, Power, Mantissa, Exponent;
    var mantissa, exponent := 0xffff, 29;
    DifficultyIs(n, mantissa, exponent);
    OnlyOneKeeps(Difficulty(n), mantissa as real, Power(exponent), Power(29));
  }

  lemma OnlyOneKeeps(d: real, m: real, p: real, q: real)
    requires m == 65535.0 && p == q > 0.0 && d * (m * p) == 65535.0 * q
    ensures d == 1.0
  {
    assert (d - 1.0) * (m * p) == 0.0;
    FactorZero(d - 1.0, m * p);
  }

  lemma FactorZero(x: real, y: real)
    requires x * y == 0.0 && y > 0.0
    ensures x == 0.0
  {
  }

  lemma OneTimes(x: real)
    ensures Product(x, 1.0) == x
  {
  }

  /** nbits_to_diff_clean: one multiplication or division by 256 for every step of the exponent away from 29. */
  method NbitsToDiffClean(nbits: U32) returns (diff: real)
    ensures Finite(diff) == CleanDiff(nbits)
  {
    hide Difficulty, Product, Quotient, Mantissa, Exponent;
    var shift: int := Exponent(nbits);
    var mantissa := Mantissa(nbits);
    if mantissa == 0 {
      return 0.0;
    }
    var m := mantissa as real;
    diff := Quotient(65535.0, m);
    ghost var base := diff;
    Quotients(65535.0, m);
    OneTimes(base);
    var shiftDiff := 29 - shift;
    if shiftDiff > 0 {
      for i := 0 to shiftDiff
        invariant diff == Product(base, Power(i))
      {
        ProductOf256(base, Power(i));
        diff := Times256(diff);
      }
    } else if shiftDiff < 0 {
      for i := 0 to -shiftDiff
        invariant base == Product(diff, Power(i))
      {
        Divided(diff, Power(i));
        diff := diff / 256.0;
      }
    }
    if shiftDiff >= 0 {
      DifficultyUp(nbits, base);
    } else {
      DifficultyDown(nbits, diff);
    }
  }

  lemma Divided(x: real, p: real)
    ensures Product(x / 256.0, Times256(p)) == Product(x, p)
  {
  }

  lemma {:induction false} ShiftedIs(x: nat, k: nat)
    ensures Shifted(x, k) as real == Product(x as real, Power(k))
  {
    if k > 0 {
      ShiftedIs(x, k - 1);
      ProductOf256(x as real, Power(k - 1));
    }
  }

  lemma {:induction false} ShiftedGrows(x: nat, y: nat, k: nat)
    requires x < y
    ensures Shifted(x, k) < Shifted(y, k)
  {
    if k > 0 {
      ShiftedGrows(x, y, k - 1);
    }
  }

  lemma {:induction false} ShiftedFurther(x: nat, k: nat, l: nat)
    requires k <= l
    ensures Shifted(x, k) <= Shifted(x, l)
    decreases l
  {
    if k < l {
      ShiftedFurther(x, k, l - 1);
    }
  }

  /** No shift of a 24-bit value by up to 13 bytes loses a bit in 128. */
  lemma ShiftFits(x: nat, k: nat)
    requires x < 0x100_0000 && k <= 13
    ensures Shifted(x, k) < MOD128
  {
    ShiftedGrows(x, 0x100_0000, k);
    ShiftedFurther(0x100_0000, k, 13);
    assert Shifted(0x100_0000, 3) == 0x1_0000_0000_0000;
    assert Shifted(0x100_0000, 5) == 0x1_0000_0000_0000_0000;
    assert Shifted(0x100_0000, 7) == 0x1_0000_0000_0000_0000_0000;
    assert Shifted(0x100_0000, 9) == 0x1_0000_0000_0000_0000_0000_0000;
    assert Shifted(0x100_0000, 11) == 0x1_0000_0000_0000_0000_0000_0000_0000;
    assert Shifted(0x100_0000, 13) == MOD128;
  }

  function Divide(x: real, m: nat): Diff {
    if m == 0 then Infinite else Finite(Quotient(x, m as real))
  }

  lemma LowByte(nbits: U32)
    ensures nbits % 256 == Exponent(Bswap32(nbits))
  {
    var b := Be32(nbits);
    DigitsOfHorner(b[3], b[2], b[1], b[0]);
  }

  /** The word of the fast branch for exponents below 29: no bit is lost. */
  lemma FastUp(n: U32, k: nat)
    requires Exponent(n) + k == 29 && k <= 13
    ensures Divide((Shifted(0xFFFF, k) % MOD128) as real, Mantissa(n))
         == if Mantissa(n) == 0 then Infinite else Finite(Difficulty(n))
  {
    hide Power, Product, Quotient, Mantissa, Exponent, Shifted, Difficulty, MOD128;
    ShiftFits(0xFFFF, k);
    SmallRemainder(Shifted(0xFFFF, k));
    if Mantissa(n) != 0 {
      var m := Mantissa(n) as real;
      var q := Quotient(65535.0, m);
      Quotients(65535.0, m);
      DifficultyUp(n, q);
      ShiftedIs(0xFFFF, k);
      Assoc(q, m, Power(k));
      Assoc(q, Power(k), m);
      Assoc(m, Power(k), 1.0);
      QuotientIs(Product(q, Power(k)), Shifted(0xFFFF, k) as real, m);
    }
  }

  /** The word of the fast branch for exponents from 29 on. */
  lemma FastDown(n: U32, k: nat)
    requires Exponent(n) == 29 + k && k <= 13
    ensures Divide(65535.0, Shifted(Mantissa(n), k) % MOD128)
         == if Mantissa(n) == 0 then Infinite else Finite(Difficulty(n))
  {
    hide Power, Product, Quotient, Mantissa, Exponent, Shifted, Difficulty, MOD128;
    ShiftFits(Mantissa(n), k);
    SmallRemainder(Shifted(Mantissa(n), k));
    ShiftedIs(Mantissa(n), k);
    if Mantissa(n) == 0 {
      ShiftedZero(k);
    } else {
      ShiftedGrows(0, Mantissa(n), k);
      var m := Mantissa(n) as real;
      var q := Quotient(65535.0, Product(m, Power(k)));
      Quotients(65535.0, Product(m, Power(k)));
      Assoc(q, Power(k), m);
      Assoc(m, Power(k), 1.0);
      DifficultyDown(n, q);
    }
  }

  lemma SmallRemainder(x: nat)
    requires x < MOD128
    ensures x % MOD128 == x
  {
  }

  lemma {:induction false} ShiftedZero(k: nat)
    ensures Shifted(0, k) == 0
  {
    if k > 0 {
      ShiftedZero(k - 1);
    }
  }

  /** nbits_to_diff on the word as it is stored, the exponent in its low byte. */
  method NbitsToDiff(nbits: U32) returns (diff: Diff)
    ensures diff == FastDiff(nbits)
  {
    hide Difficulty, Quotient, Mantissa, Exponent, Shifted, Bswap32;
    var shift := nbits % 256;
    var bits := Mantissa(Bswap32(nbits));
    LowByte(nbits);
    var off: int := shift - 29;
    if -13 <= off <= 12 {
      if off == 0 {
        FastDown(Bswap32(nbits), 0);
        NoShift(bits);
        diff := Divide(65535.0, bits);
      } else if off < 0 {
        FastUp(Bswap32(nbits), -off);
        diff := Divide((Shifted(0xFFFF, -off) % MOD128) as real, bits);
      } else {
        FastDown(Bswap32(nbits), off);
        diff := Divide(65535.0, Shifted(bits, off) % MOD128);
      }
    } else {
      var d := 0.0;
      var m := shift;
      while m < 29
        invariant d == 0.0
      {
        d := d * 256.0;
        m := m + 1;
      }
      m := 29;
      while m < shift
        invariant d == 0.0
      {
        d := d / 256.0;
        m := m + 1;
      }
      diff := Finite(d);
    }
  }

  lemma NoShift(bits: nat)
    requires bits < 0x100_0000
    ensures Shifted(bits, 0) % MOD128 == bits
  {
  }

  lemma DifficultyIsPositive(n: U32)
    requires Mantissa(n) != 0
    ensures Difficulty(n) > 0.0
  {
    hide Power, Product, Quotient, Mantissa;
  }

  /** The shift form on the byte-swapped word agrees with the iterated form exactly for a nonzero mantissa with
      an exponent from 16 to 41, and for a zero mantissa with any other exponent. */
  lemma FormsAgreeExactly(n: U32)
    ensures FastDiff(Bswap32(n)) == CleanDiff(n) <==> (Mantissa(n) != 0 <==> 16 <= Exponent(n) <= 41)
  {
    hide Difficulty, Bswap32, Mantissa, Exponent;
    Bswap32Facts(n);
    if Mantissa(n) != 0 {
      DifficultyIsPositive(n);
    }
  }
}
