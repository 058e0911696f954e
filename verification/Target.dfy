/** util.c: difficulty, 256-bit targets and the hash check, over exact reals. A 256-bit number is four
    64-bit limbs, least significant first, as the 64-bit forms index it; the 128-bit forms see limbs
    0, 1 and limbs 2, 3 as one number each. */
module Target {
  import opened Bytes

  const MOD128 := MOD64 * MOD64

  type Limbs = s: seq<U64> | |s| == 4 witness [0, 0, 0, 0]

  function Low128(t: Limbs): nat {
    t[0] + MOD64 * t[1]
  }

  function High128(t: Limbs): nat {
    t[2] + MOD64 * t[3]
  }

  function Value(t: Limbs): nat {
    Low128(t) + MOD128 * High128(t)
  }

  // ----- valid_hash -----

  /** The 128-bit form. */
  predicate ValidHash128(h: Limbs, t: Limbs) {
    if High128(h) != High128(t) then High128(h) < High128(t) else Low128(h) <= Low128(t)
  }

  /** The 64-bit form. */
  predicate ValidHash64(h: Limbs, t: Limbs) {
    if h[3] != t[3] then h[3] < t[3]
    else if h[2] != t[2] then h[2] < t[2]
    else if h[1] != t[1] then h[1] < t[1]
    else h[0] <= t[0]
  }

  /** Two digits in base b compare like the number they write. */
  lemma DigitsCompare(b: nat, lo: nat, hi: nat, lo': nat, hi': nat)
    requires lo < b && lo' < b
    ensures lo + b * hi < lo' + b * hi' <==> hi < hi' || (hi == hi' && lo < lo')
    ensures lo + b * hi == lo' + b * hi' <==> hi == hi' && lo == lo'
  {
    if hi < hi' {
      assert b * hi' >= b * (hi + 1);
    } else if hi' < hi {
      assert b * hi >= b * (hi' + 1);
    }
  }

  /** Both forms compare the two 256-bit numbers. */
  lemma ValidHashCompares(h: Limbs, t: Limbs)
    ensures ValidHash128(h, t) <==> Value(h) <= Value(t)
    ensures ValidHash64(h, t) <==> Value(h) <= Value(t)
  {
    DigitsCompare(MOD64, h[0], h[1], t[0], t[1]);
    DigitsCompare(MOD64, h[2], h[3], t[2], t[3]);
    HalfBound(h);
    HalfBound(t);
    DigitsCompare(MOD128, Low128(h), High128(h), Low128(t), High128(t));
  }

  lemma HalfBound(t: Limbs)
    ensures Low128(t) < MOD128 && High128(t) < MOD128
  {
  }

  // ----- difficulty to target -----

  const EXP32 := 4294967296.0
  const EXP64 := 18446744073709551616.0
  const EXP96 := 79228162514264337593543950336.0

  /** 1/diff fits the integer part of a target. */
  predicate Representable(diff: real) {
    diff * EXP32 > 1.0
  }

  /** The upper half of the target: 2^96 / diff, rounded down. */
  function UpperHalf(diff: real): int
    requires diff > 0.0
  {
    (1.0 / diff * EXP96).Floor
  }

  lemma Reciprocal(diff: real)
    requires Representable(diff)
    ensures diff > 0.0 && 0.0 < 1.0 / diff < EXP32
  {
    var m := 1.0 / diff;
    assert m * diff == 1.0;
    Monotone(EXP32, m, diff);
  }

  lemma FloorShift(k: int, y: real)
    ensures (k as real + y).Floor == k + y.Floor
  {
  }

  /** diff_to_hash, 128-bit form, on the target seen as two 128-bit numbers. */
  method DiffToHash128(diff: real) returns (lower: nat, upper: nat)
    requires Representable(diff)
    ensures lower == MOD128 - 1
    ensures upper < MOD128 && upper == UpperHalf(diff)
  {
    Reciprocal(diff);
    var m := 1.0 / diff;
    lower := MOD128 - 1;
    upper := (m * EXP96).Floor;
    UpperHalfBound(diff);
  }

  lemma UpperHalfBound(diff: real)
    requires Representable(diff)
    ensures diff > 0.0 && 0 <= UpperHalf(diff) < MOD128
  {
    Reciprocal(diff);
    var x := 1.0 / diff * EXP96;
    assert 0.0 < x < EXP32 * EXP96;
    assert EXP32 * EXP96 == MOD128 as real;
  }

  /** diff_to_hash, 64-bit form. */
  method DiffToHash64(target: array<U64>, diff: real)
    requires Representable(diff) && target.Length == 4
    modifies target
    ensures TargetOf(target[..], diff)
  {
    Reciprocal(diff);
    var m := 1.0 / diff * EXP32;
    target[1] := MOD64 - 1;
    target[0] := MOD64 - 1;
    var whole := m.Floor;
    var fraction := (m - whole as real) * EXP64;
    assert 0.0 <= m < EXP64;
    assert 0.0 <= fraction < EXP64;
    target[3] := whole;
    target[2] := fraction.Floor;
    SplitFloor(diff, m, whole, fraction);
  }

  lemma SplitFloor(diff: real, m: real, whole: int, fraction: real)
    requires diff > 0.0 && m == 1.0 / diff * EXP32
    requires fraction == (m - whole as real) * EXP64
    ensures UpperHalf(diff) == fraction.Floor + MOD64 * whole
  {
    assert 1.0 / diff * EXP96 == m * EXP64;
    assert m * EXP64 == whole as real * EXP64 + fraction;
    assert whole as real * EXP64 == (MOD64 * whole) as real;
    FloorShift(MOD64 * whole, fraction);
  }

  /** hash_to_diff, 128-bit form. */
  function HashToDiff128(h: Limbs): real
    requires High128(h) != 0
  {
    1.0 / (High128(h) as real / EXP96)
  }

  /** hash_to_diff, 64-bit form. */
  function HashToDiff64(h: Limbs): real
    requires h[3] as real / EXP32 + h[2] as real / EXP96 != 0.0
  {
    1.0 / (h[3] as real / EXP32 + h[2] as real / EXP96)
  }

  lemma FormsOfDiffAgree(h: Limbs)
    requires High128(h) != 0
    ensures h[3] as real / EXP32 + h[2] as real / EXP96 == High128(h) as real / EXP96 > 0.0
    ensures HashToDiff64(h) == HashToDiff128(h)
  {
    var a, b := h[3] as real, h[2] as real;
    assert High128(h) as real == b + EXP64 * a;
    assert a / EXP32 == EXP64 * a / EXP96;
  }

  /** What diff_to_hash leaves in a target. */
  predicate TargetOf(t: Limbs, diff: real)
    requires Representable(diff)
  {
    Reciprocal(diff);
    t[0] == t[1] == MOD64 - 1 && High128(t) == UpperHalf(diff)
  }

  /** A hash meets the target of a difficulty exactly when its own difficulty is at least that. */
  lemma MeetsTargetIffDifficult(h: Limbs, t: Limbs, diff: real)
    requires Representable(diff) && High128(h) != 0 && TargetOf(t, diff)
    ensures ValidHash128(h, t) <==> HashToDiff128(h) >= diff
    ensures ValidHash64(h, t) <==> HashToDiff128(h) >= diff
  {
    Reciprocal(diff);
    ValidHashCompares(h, t);
    HalfBound(h);
    DigitsCompare(MOD64, h[0], h[1], t[0], t[1]);
    assert ValidHash128(h, t) <==> High128(h) <= UpperHalf(diff);
    AtMostFloor(High128(h), 1.0 / diff * EXP96);
    Crossed(High128(h) as real, diff);
  }

  /** For every hash, a top half of zero included: it meets the target of a difficulty exactly when the difficulty
      times its top half is at most 2^96. */
  lemma MeetsTargetExactly(h: Limbs, t: Limbs, diff: real)
    requires Representable(diff) && TargetOf(t, diff)
    ensures Value(h) <= Value(t) <==> diff * High128(h) as real <= 79228162514264337593543950336.0
  {
    hide Low128, High128;
    Reciprocal(diff);
    HalfBound(h);
    HalfBound(t);
    DigitsCompare(MOD128, Low128(h), High128(h), Low128(t), High128(t));
    LowIsFull(t);
    AtMostFloor(High128(h), 1.0 / diff * EXP96);
    TimesDifficulty(High128(h) as real, diff);
  }

  lemma LowIsFull(t: Limbs)
    ensures t[0] == t[1] == MOD64 - 1 ==> Low128(t) == MOD128 - 1
  {
  }

  lemma TimesDifficulty(u: real, diff: real)
    requires diff > 0.0
    ensures u <= 1.0 / diff * EXP96 <==> diff * u <= EXP96
  {
    var m := 1.0 / diff;
    assert m * diff == 1.0;
    Monotone(u, m * EXP96, diff);
    assert m * EXP96 * diff == EXP96;
  }

  lemma AtMostFloor(k: int, x: real)
    ensures k <= x.Floor <==> k as real <= x
  {
  }

  lemma Crossed(u: real, diff: real)
    requires u > 0.0 && diff > 0.0
    ensures u <= 1.0 / diff * EXP96 <==> 1.0 / (u / EXP96) >= diff
  {
    var v := u / EXP96;
    assert u == v * EXP96;
    InverseSwaps(v, diff);
  }

  lemma InverseSwaps(v: real, d: real)
    requires v > 0.0 && d > 0.0
    ensures v <= 1.0 / d <==> v * d <= 1.0
    ensures 1.0 / v >= d <==> v * d <= 1.0
  {
    var r, q := 1.0 / d, 1.0 / v;
    assert r * d == 1.0 && q * v == 1.0;
    Monotone(v, r, d);
    Monotone(d, q, v);
  }

  lemma Monotone(x: real, y: real, k: real)
    requires k > 0.0
    ensures x <= y <==> x * k <= y * k
  {
    if x > y {
      assert (x - y) * k > 0.0;
    } else {
      assert (y - x) * k >= 0.0;
    }
  }

  // ----- the four-lane prefilter of algo-gate-api.c -----

  /** extr_lane_4x32 for 256 bits. */
  function ExtractLane(hash32: seq<U32>, lane: nat): (h: seq<U32>)
    requires |hash32| == 32 && lane < 4
    ensures |h| == 8
  {
    seq(8, i requires 0 <= i < 8 => hash32[lane + 4 * i])
  }

  function LimbsOfWords(w: seq<U32>): Limbs
    requires |w| == 8
  {
    [Limb(w[0], w[1]), Limb(w[2], w[3]), Limb(w[4], w[5]), Limb(w[6], w[7])]
  }

  function Limb(lo: U32, hi: U32): U64 {
    lo as int + MOD32 * hi as int
  }

  /** The limbs of eight words are those of the number the words write, least significant word first. */
  lemma WordsValue(w: seq<U32>)
    requires |w| == 8
    ensures Value(LimbsOfWords(w)) ==
      w[0] + MOD32 * (w[1] + MOD32 * (w[2] + MOD32 * (w[3]
        + MOD32 * (w[4] + MOD32 * (w[5] + MOD32 * (w[6] + MOD32 * w[7] as int))))))
  {
  }

  /** The top-word test rejects no lane that valid_hash would accept. */
  lemma PrefilterKeepsValidLanes(hash32: seq<U32>, lane: nat, target: seq<U32>)
    requires |hash32| == 32 && lane < 4 && |target| == 8
    requires ValidHash128(LimbsOfWords(ExtractLane(hash32, lane)), LimbsOfWords(target))
    ensures hash32[28 + lane] <= target[7]
  {
    var h := ExtractLane(hash32, lane);
    ValidHashCompares(LimbsOfWords(h), LimbsOfWords(target));
    DigitsCompare(MOD32, h[6], h[7], target[6], target[7]);
  }
}
