/** The extranonce2 counter that stratum_gen_work increments in place inside the coinbase. */
module Extranonce {
  import opened Bytes

  function Pow256(n: nat): (p: nat)
    ensures p > 0
  {
    if n == 0 then 1 else 256 * Pow256(n - 1)
  }

  /** The number a counter holds, least significant byte first. */
  function LeValue(s: seq<Byte>): (v: nat)
    ensures v < Pow256(|s|)
  {
    if s == [] then 0 else s[0] as int + 256 * LeValue(s[1..])
  }

  /** The counter after one increment. */
  function Next(s: seq<Byte>): (r: seq<Byte>)
    ensures |r| == |s|
  {
    if s == [] then [] else if s[0] == 255 then [0] + Next(s[1..]) else [s[0] as int + 1] + s[1..]
  }

  lemma {:induction false} NextCounts(s: seq<Byte>)
    ensures LeValue(Next(s)) == if LeValue(s) + 1 == Pow256(|s|) then 0 else LeValue(s) + 1
  {
    if s != [] {
      NextCounts(s[1..]);
      assert Next(s)[1..] == if s[0] == 255 then Next(s[1..]) else s[1..];
    }
  }

  /** The counter after k increments. */
  function After(s: seq<Byte>, k: nat): (r: seq<Byte>)
    ensures |r| == |s|
  {
    if k == 0 then s else Next(After(s, k - 1))
  }

  lemma {:induction false} AfterCounts(s: seq<Byte>, k: nat)
    ensures LeValue(After(s, k)) == (LeValue(s) + k) % Pow256(|s|)
  {
    var m := Pow256(|s|);
    if k == 0 {
      SmallModulo(LeValue(s), m);
    } else {
      AfterCounts(s, k - 1);
      NextCounts(After(s, k - 1));
      SuccModulo(LeValue(s) + k - 1, m);
    }
  }

  lemma SmallModulo(x: nat, m: nat)
    requires x < m
    ensures x % m == x
  {
  }

  lemma SuccModulo(x: nat, m: nat)
    requires m > 0
    ensures (x + 1) % m == if x % m + 1 == m then 0 else x % m + 1
  {
    var q, r := x / m, x % m;
    assert x == m * q + r;
    if r + 1 == m {
      assert x + 1 == m * (q + 1) + 0;
      QuotientUnique(x + 1, m, q + 1, 0);
    } else {
      QuotientUnique(x + 1, m, q, r + 1);
    }
  }

  lemma DistinctModulo(a: nat, b: nat, m: nat)
    requires a < b < a + m
    ensures a % m != b % m
  {
    var qa, ra, qb, rb := a / m, a % m, b / m, b % m;
    assert a == m * qa + ra && b == m * qb + rb;
    assert m * (qb - qa) == (b - a) - (rb - ra);
    Multiples(m, qb - qa);
  }

  lemma AddModulus(a: nat, m: nat)
    requires m > 0
    ensures (a + m) % m == a % m
  {
    var q, r := a / m, a % m;
    assert a == m * q + r;
    assert m * (q + 1) == m * q + m;
    QuotientUnique(a + m, m, q + 1, r);
  }

  /** Fewer than 256^size generations never repeat an extranonce2. */
  lemma GenerationsDistinct(s: seq<Byte>, i: nat, k: nat)
    requires i < k && k - i < Pow256(|s|)
    ensures After(s, i) != After(s, k)
  {
    AfterCounts(s, i);
    AfterCounts(s, k);
    DistinctModulo(LeValue(s) + i, LeValue(s) + k, Pow256(|s|));
  }

  /** ... and exactly 256^size generations do. */
  lemma GenerationsWrap(s: seq<Byte>, i: nat)
    ensures LeValue(After(s, i + Pow256(|s|))) == LeValue(After(s, i))
  {
    AfterCounts(s, i);
    AfterCounts(s, i + Pow256(|s|));
    AddModulus(LeValue(s) + i, Pow256(|s|));
  }

  /** Leading 255s all carry. */
  lemma {:induction false} CarryChain(s: seq<Byte>, t: nat)
    requires t <= |s| && forall i :: 0 <= i < t ==> s[i] == 255
    ensures Next(s) == Zeros(t) + Next(s[t..])
  {
    if t == 0 {
      assert s[0..] == s;
    } else {
      CarryChain(s[1..], t - 1);
      assert s[1..][t - 1..] == s[t..];
      assert Zeros(t) == [0] + Zeros(t - 1);
    }
  }

  /** The coinbase while the carry has run through t bytes of the window s. */
  function Carried(before: seq<Byte>, s: seq<Byte>, t: nat, after: seq<Byte>): seq<Byte>
    requires t <= |s|
  {
    before + Zeros(t) + s[t..] + after
  }

  lemma CarryOn(before: seq<Byte>, s: seq<Byte>, t: nat, after: seq<Byte>)
    requires t < |s|
    ensures Carried(before, s, t, after)[|before| + t := 0] == Carried(before, s, t + 1, after)
  {
  }

  lemma CarryStops(before: seq<Byte>, s: seq<Byte>, t: nat, after: seq<Byte>)
    requires t < |s| && s[t] != 255 && forall i :: 0 <= i < t ==> s[i] == 255
    ensures Carried(before, s, t, after)[|before| + t := s[t] as int + 1] == before + Next(s) + after
  {
    hide Carried, Next;
    NextStops(s, t);
    CarriedStops(before, s, t, after, s[t] as int + 1);
  }

  lemma NextStops(s: seq<Byte>, t: nat)
    requires t < |s| && s[t] != 255 && forall i :: 0 <= i < t ==> s[i] == 255
    ensures Next(s) == Zeros(t) + ([s[t] as int + 1] + s[t + 1..])
  {
    CarryChain(s, t);
    assert s[t..][0] == s[t] && s[t..][1..] == s[t + 1..];
  }

  lemma CarriedStops(before: seq<Byte>, s: seq<Byte>, t: nat, after: seq<Byte>, x: Byte)
    requires t < |s|
    ensures Carried(before, s, t, after)[|before| + t := x] == before + (Zeros(t) + ([x] + s[t + 1..])) + after
  {
  }

  /** for (t = 0; t < size && !(++xnonce2[t]); t++) ; on the window of the coinbase. */
  method Increment(coinbase: array<Byte>, at: nat, size: nat)
    requires at + size <= coinbase.Length
    modifies coinbase
    ensures coinbase[..] == old(coinbase[..at]) + Next(old(coinbase[at..at + size])) + old(coinbase[at + size..])
  {
    ghost var s := coinbase[at..at + size];
    ghost var before, after := coinbase[..at], coinbase[at + size..];
    var t := 0;
    assert coinbase[..] == Carried(before, s, 0, after);
    while t < size
      invariant t <= size && forall i :: 0 <= i < t ==> s[i] == 255
      invariant coinbase[..] == Carried(before, s, t, after)
    {
      ghost var c := coinbase[..];
      assert c[at + t] == s[t];
      coinbase[at + t] := (coinbase[at + t] as int + 1) % 256;
      assert coinbase[..] == c[at + t := coinbase[at + t]];
      if coinbase[at + t] != 0 {
        CarryStops(before, s, t, after);
        return;
      }
      CarryOn(before, s, t, after);
      t := t + 1;
    }
    CarryChain(s, size);
    assert Carried(before, s, size, after) == before + Next(s) + after;
  }
}
