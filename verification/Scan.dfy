/** scanhash_civiclight: the pairwise scan of a nonce range, and its one-at-a-time build variant. */
module Scan {
  import opened Bytes
  import opened Sha256
  import opened Civiclight
  import Extranonce
  import opened Target
  import opened Header

  /** What submit_solution is handed: the work words, nonce swapped in, and the hash. */
  datatype Submission = Submission(data: seq<U32>, hash: seq<Byte>)

  /** Everything a scan depends on besides the work words it updates. */
  datatype Job = Job(p: Primitives, base: seq<U32>, target: Limbs, bench: bool)

  ghost predicate Usable(j: Job) {
    Civiclight.Usable(j.p) && |j.base| >= 20
  }

  function LimbsOfHash(h: seq<Byte>): Limbs
    requires |h| == 32
  {
    [LimbAt(h, 0), LimbAt(h, 8), LimbAt(h, 16), LimbAt(h, 24)]
  }

  function LimbAt(h: seq<Byte>, i: nat): U64
    requires i + 8 <= |h|
  {
    Limb(FromLe32(h[i..i + 4]), FromLe32(h[i + 4..i + 8]))
  }

  /** The limbs of a hash are those of the number its 32 bytes write, least significant byte first. */
  lemma LimbsAreBytes(h: seq<Byte>)
    requires |h| == 32
    ensures Value(LimbsOfHash(h)) == Extranonce.LeValue(h)
    ensures High128(LimbsOfHash(h)) == Extranonce.LeValue(h[16..])
  {
    hide *;
    HalvesOfHash(h);
    HalfIsBytes(h, 0);
    HalfIsBytes(h, 16);
    EmptyIsZero();
    assert h[0..] == h && h[32..] == [];
  }

  /** Two limbs before the rest. */
  lemma HalfIsBytes(h: seq<Byte>, i: nat)
    requires i + 16 <= |h|
    ensures Extranonce.LeValue(h[i..]) ==
      LimbAt(h, i) + MOD64 * LimbAt(h, i + 8) + MOD128 * Extranonce.LeValue(h[i + 16..])
  {
    hide LimbAt, Extranonce.LeValue;
    LimbIsBytes(h, i);
    LimbIsBytes(h, i + 8);
  }

  lemma HalvesOfHash(h: seq<Byte>)
    requires |h| == 32
    ensures var limbs := LimbsOfHash(h);
      && Low128(limbs) == LimbAt(h, 0) + MOD64 * LimbAt(h, 8)
      && High128(limbs) == LimbAt(h, 16) + MOD64 * LimbAt(h, 24)
      && Value(limbs) == Low128(limbs) + MOD128 * High128(limbs)
  {
    hide LimbAt;
  }

  lemma EmptyIsZero()
    ensures Extranonce.LeValue([]) == 0
  {
  }

  /** Eight bytes before the rest. */
  lemma LimbIsBytes(h: seq<Byte>, i: nat)
    requires i + 8 <= |h|
    ensures Extranonce.LeValue(h[i..]) == LimbAt(h, i) + MOD64 * Extranonce.LeValue(h[i + 8..])
  {
    hide Extranonce.LeValue, FromLe32;
    WordIsBytes(h, i);
    WordIsBytes(h, i + 4);
  }

  lemma WordIsBytes(h: seq<Byte>, i: nat)
    requires i + 4 <= |h|
    ensures Extranonce.LeValue(h[i..]) == FromLe32(h[i..i + 4]) + MOD32 * Extranonce.LeValue(h[i + 4..])
  {
    hide Extranonce.LeValue;
    ByteFirst(h, i);
    ByteFirst(h, i + 1);
    ByteFirst(h, i + 2);
    ByteFirst(h, i + 3);
  }

  lemma ByteFirst(h: seq<Byte>, i: nat)
    requires i < |h|
    ensures Extranonce.LeValue(h[i..]) == h[i] + 256 * Extranonce.LeValue(h[i + 1..])
  {
    assert h[i..][1..] == h[i + 1..];
  }

  ghost function HashAt(j: Job, n: U32): (h: seq<Byte>)
    requires Usable(j)
    ensures |h| == 32
  {
    PowHash(j.p, HeaderAt(j.base, j.bench, n))
  }

  /** The hash, as the number its bytes write from the least significant one up, is at most the target. */
  ghost predicate Meets(j: Job, n: U32)
    requires Usable(j)
  {
    Extranonce.LeValue(HashAt(j, n)) <= Value(j.target)
  }

  /** What a one-at-a-time scan of the nonces first, ..., n - 1 submits, in order. */
  ghost function Found(j: Job, first: U32, n: U32): seq<Submission>
    requires Usable(j) && first <= n
    decreases n - first
  {
    if n == first then []
    else Found(j, first, n - 1) +
         if !j.bench && Meets(j, n - 1) then [Submission(j.base[19 := Bswap32(n - 1)], HashAt(j, n - 1))] else []
  }

  function Sum(s: seq<nat>): nat {
    if s == [] then 0 else Sum(s[..|s| - 1]) + s[|s| - 1]
  }

  lemma SumAppend(s: seq<nat>, x: nat)
    ensures Sum(s + [x]) == Sum(s) + x
  {
    assert (s + [x])[..|s|] == s;
  }

  /** Submissions of a scan name exactly the nonces that meet the target, each once and in ascending order. */
  ghost predicate Names(s: Submission, n: U32) {
    |s.data| > 19 && s.data[19] == Bswap32(n)
  }

  lemma FoundAscending(j: Job, first: U32, n: U32) returns (nonces: seq<U32>)
    requires Usable(j) && first <= n
    ensures |nonces| == |Found(j, first, n)|
    ensures forall i :: 0 <= i < |nonces| ==> Names(Found(j, first, n)[i], nonces[i])
    ensures Ascending(nonces)
    ensures forall x: U32 :: x in nonces <==>
              (first <= x < n && !j.bench
               && Extranonce.LeValue(PowHash(j.p, HeaderAt(j.base, false, x))) <= Value(j.target))
  {
    hide Meets, Found, Ascending, Names;
    nonces := MeetingAscending(j, first, n);
    forall x: U32 | !j.bench
      ensures Meets(j, x) <==> Extranonce.LeValue(PowHash(j.p, HeaderAt(j.base, false, x))) <= Value(j.target)
    {
      MeetsIs(j, x);
    }
  }

  lemma MeetsIs(j: Job, n: U32)
    requires Usable(j)
    ensures Meets(j, n) <==> Extranonce.LeValue(PowHash(j.p, HeaderAt(j.base, j.bench, n))) <= Value(j.target)
  {
  }

  lemma {:induction false} MeetingAscending(j: Job, first: U32, n: U32) returns (nonces: seq<U32>)
    requires Usable(j) && first <= n
    ensures |nonces| == |Found(j, first, n)|
    ensures forall i :: 0 <= i < |nonces| ==> Names(Found(j, first, n)[i], nonces[i])
    ensures Ascending(nonces)
    ensures forall x: U32 :: x in nonces <==> first <= x < n && !j.bench && Meets(j, x)
    decreases n - first
  {
    hide HashAt, Meets, Bswap32;
    if n == first {
      nonces := [];
    } else {
      var before := MeetingAscending(j, first, n - 1);
      nonces := before;
      if !j.bench && Meets(j, n - 1) {
        nonces := before + [n - 1];
        AscendingAppend(before, n - 1);
      }
    }
  }

  ghost predicate Ascending(s: seq<U32>) {
    forall i, k :: 0 <= i < k < |s| ==> s[i] < s[k]
  }

  lemma AscendingAppend(s: seq<U32>, x: U32)
    requires Ascending(s) && forall y :: y in s ==> y < x
    ensures Ascending(s + [x])
    ensures forall y: U32 :: y in s + [x] <==> y in s || y == x
  {
    forall i, k | 0 <= i < k < |s + [x]| ensures (s + [x])[i] < (s + [x])[k] {
      assert s[i] in s;
    }
  }

  /** Only the nonce word may differ from the work the scan was given. */
  ghost predicate OnlyNonceDiffers(j: Job, data: seq<U32>) {
    |data| == |j.base| >= 20 && data[19 := j.base[19]] == j.base
  }

  /** valid_hash, then submit_solution on the work with the swapped nonce in it. */
  method Check(data: array<U32>, ghost j: Job, ghost first: U32, n: U32, hash: seq<Byte>, target: Limbs, bench: bool,
               sent: seq<Submission>) returns (sent': seq<Submission>)
    requires Usable(j) && OnlyNonceDiffers(j, data[..]) && target == j.target && bench == j.bench
    requires first <= n && n + 1 < MOD32 && hash == HashAt(j, n) && sent == Found(j, first, n)
    modifies data
    ensures OnlyNonceDiffers(j, data[..]) && sent' == Found(j, first, n + 1)
  {
    hide LimbsOfHash, Value, ValidHash128, HashAt, Extranonce.LeValue;
    LimbsAreBytes(hash);
    ValidHashCompares(LimbsOfHash(hash), target);
    sent' := sent;
    if ValidHash128(LimbsOfHash(hash), target) && !bench {
      data[19] := Bswap32(n);
      assert data[..] == j.base[19 := Bswap32(n)];
      sent' := sent + [Submission(data[..], hash)];
    }
  }

  /** The batch of hashes not yet handed to the statistics. */
  method Count(stats: seq<nat>, batch: nat, k: nat, limit: nat) returns (stats': seq<nat>, batch': nat)
    requires limit > 0
    ensures Sum(stats') + batch' == Sum(stats) + batch + k && batch' < limit
  {
    stats', batch' := stats, batch + k;
    if batch' >= limit {
      SumAppend(stats, batch');
      stats' := stats + [batch'];
      batch' := 0;
    }
  }

  /** The result both builds promise: first, ..., n - 1 were hashed. */
  ghost predicate Scanned(j: Job, first: U32, last: U32, n: U32, sent: seq<Submission>, stats: seq<nat>) {
    Usable(j) && first <= n && (n <= last || n == first)
    && sent == Found(j, first, n)
    && if j.bench then stats == [] else Sum(stats) == n - first
  }

  /** first, ..., n - 1 are done and accounted for, `batch` of them not yet in the statistics. */
  ghost predicate Running(j: Job, first: U32, last: U32, n: U32, data: seq<U32>, sent: seq<Submission>,
                          stats: seq<nat>, batch: nat)
    requires Usable(j)
  {
    first <= n && (n <= last || n == first)
    && OnlyNonceDiffers(j, data) && sent == Found(j, first, n)
    && if j.bench then stats == [] && batch == 0 else Sum(stats) + batch == n - first
  }

  /** Some read of the restart flag came back set. */
  ghost predicate Restarted(restart: nat -> bool, looks: nat) {
    exists k :: 0 <= k < looks && restart(k)
  }

  /** Some read of the restart flag came back clear. */
  ghost predicate Allowed(restart: nat -> bool, looks: nat) {
    exists k :: 0 <= k < looks && !restart(k)
  }

  lemma Seen(restart: nat -> bool, looks: nat)
    requires looks > 0
    ensures Restarted(restart, looks - 1) || restart(looks - 1) ==> Restarted(restart, looks)
    ensures Allowed(restart, looks - 1) || !restart(looks - 1) ==> Allowed(restart, looks)
  {
    assert 0 <= looks - 1 < looks;
  }

  /** The shared 64-byte prefix has been absorbed. */
  ghost predicate Prefixed(j: Job, e: seq<U32>, midstate: Sha256Context)
    requires Usable(j)
    reads midstate, midstate.buf, midstate.state
  {
    e == Edata(j.base, j.bench)
    && midstate.Valid() && midstate.alg == j.p.sha && midstate.message == Le32s(e[..16])
  }

  method HashOne(ghost j: Job, p: Primitives, e: seq<U32>, midstate: Sha256Context, n: U32) returns (h: seq<Byte>)
    requires Usable(j) && p == j.p && Prefixed(j, e, midstate)
    ensures h == HashAt(j, n)
  {
    hide PowHash, Sha256Context.Valid;
    SharedPrefix(j.base, j.bench, n);
    h := RunPowHashFromMidstate(p, Le32s(e[19 := n]), midstate);
  }

  method HashPair(ghost j: Job, p: Primitives, e: seq<U32>, midstate: Sha256Context, n: U32)
    returns (h0: seq<Byte>, h1: seq<Byte>)
    requires Usable(j) && p == j.p && Prefixed(j, e, midstate) && n + 1 < MOD32
    ensures h0 == HashAt(j, n) && h1 == HashAt(j, n + 1)
  {
    hide PowHash, Sha256Context.Valid;
    SharedPrefix(j.base, j.bench, n);
    SharedPrefix(j.base, j.bench, n + 1);
    h0, h1 := RunPowHashTwoWay(p, Le32s(e[19 := n]), Le32s(e[19 := n + 1]), midstate);
  }

  /** One pass of the pairwise loop. */
  method PairStep(data: array<U32>, ghost j: Job, p: Primitives, target: Limbs, bench: bool, e: seq<U32>,
                  midstate: Sha256Context, ghost first: U32, ghost last: U32, n: U32,
                  sent0: seq<Submission>, stats0: seq<nat>, batch0: nat)
    returns (sent: seq<Submission>, stats: seq<nat>, batch: nat)
    requires Usable(j) && p == j.p && target == j.target && bench == j.bench && Prefixed(j, e, midstate)
    requires Running(j, first, last, n, data[..], sent0, stats0, batch0) && n + 1 < last
    modifies data
    ensures Running(j, first, last, n + 2, data[..], sent, stats, batch)
  {
    hide Prefixed, HashAt, Meets, Found, Sum, Edata;
    var h0, h1 := HashPair(j, p, e, midstate, n);
    stats, batch := stats0, batch0;
    if !bench {
      stats, batch := Count(stats, batch, 2, 256);
    }
    sent := Check(data, j, first, n, h0, target, bench, sent0);
    sent := Check(data, j, first, n + 1, h1, target, bench, sent);
  }

  /** One pass of the one-nonce loop. */
  method OneStep(data: array<U32>, ghost j: Job, p: Primitives, target: Limbs, bench: bool, e: seq<U32>,
                 midstate: Sha256Context, ghost first: U32, ghost last: U32, n: U32,
                 sent0: seq<Submission>, stats0: seq<nat>, batch0: nat, limit: nat)
    returns (sent: seq<Submission>, stats: seq<nat>, batch: nat)
    requires Usable(j) && p == j.p && target == j.target && bench == j.bench && Prefixed(j, e, midstate) && limit > 0
    requires Running(j, first, last, n, data[..], sent0, stats0, batch0) && n < last
    modifies data
    ensures Running(j, first, last, n + 1, data[..], sent, stats, batch)
  {
    hide Prefixed, HashAt, Meets, Found, Sum, Edata;
    var h := HashOne(j, p, e, midstate, n);
    stats, batch := stats0, batch0;
    if !bench {
      stats, batch := Count(stats, batch, 1, limit);
    }
    sent := Check(data, j, first, n, h, target, bench, sent0);
  }

  /** The last step of both builds: one more nonce if the range is not finished, the rest of the statistics,
      and the nonce word. */
  method FinishScan(data: array<U32>, ghost j: Job, p: Primitives, target: Limbs, bench: bool, e: seq<U32>,
                    midstate: Sha256Context, first: U32, last: U32, n0: U32, stopped: bool,
                    sent0: seq<Submission>, stats0: seq<nat>, batch0: nat)
    returns (sent: seq<Submission>, stats: seq<nat>)
    requires Usable(j) && p == j.p && target == j.target && bench == j.bench && Prefixed(j, e, midstate)
    requires Running(j, first, last, n0, data[..], sent0, stats0, batch0)
    modifies data
    ensures OnlyNonceDiffers(j, data[..]) && Scanned(j, first, last, data[19], sent, stats)
    ensures data[19] == if n0 < last && !stopped then n0 + 1 else n0
  {
    hide Prefixed, HashAt, Meets, Found, Sum, Edata;
    var n := n0;
    var batch := batch0;
    sent, stats := sent0, stats0;
    if n < last && !stopped {
      var h := HashOne(j, p, e, midstate, n);
      if !bench {
        batch := batch + 1;
      }
      sent := Check(data, j, first, n, h, target, bench, sent);
      n := n + 1;
    }
    if !bench && batch != 0 {
      stats, batch := Count(stats, batch, 0, 1);
    }
    data[19] := n;
    assert data[..][19 := j.base[19]] == j.base;
  }

  /** n + 1 in 32 bits. */
  function Succ32(n: U32): U32 {
    (n + 1) % MOD32
  }

  /** From n on, in steps of two, the guard n + 1 < last is never evaluated past the last 32-bit number. */
  predicate GuardSafe(n: U32, last: U32) {
    (n < MOD32 - 1 || last == 0) && (last < MOD32 - 1 || n % 2 == 0)
  }

  lemma GuardIs(n: U32, last: U32)
    requires GuardSafe(n, last)
    ensures Succ32(n) < last <==> n as int + 1 < last as int
    ensures Succ32(n) < last ==> GuardSafe(n + 2, last)
  {
  }

  /** After k rounds the loop stands at 2^32 - 1, and its guard has held all along, there too. */
  predicate Reaches(first: U32, last: U32, k: nat) {
    first + 2 * k == MOD32 - 1 && forall i :: 0 <= i <= k ==> Succ32(first + 2 * i) < last
  }

  /** Otherwise, unless it is restarted, the loop comes to n = 2^32 - 1, where n + 1 is 0 and the guard still holds. */
  lemma WrapsExactlyOtherwise(first: U32, last: U32)
    ensures (exists k :: Reaches(first, last, k)) <==> !GuardSafe(first, last)
  {
    if !GuardSafe(first, last) {
      var k: nat := (MOD32 - 1 - first as int) / 2;
      assert Reaches(first, last, k);
    } else {
      forall k: nat ensures !Reaches(first, last, k) {
        if first + 2 * k == MOD32 - 1 && k > 0 {
          assert first + 2 * (k - 1) == MOD32 - 3;
        }
      }
    }
  }

  /** The pairwise loop. */
  method PairLoop(data: array<U32>, ghost j: Job, p: Primitives, target: Limbs, bench: bool, e: seq<U32>,
                  midstate: Sha256Context, first: U32, last: U32, restart: nat -> bool)
    returns (n: U32, sent: seq<Submission>, stats: seq<nat>, batch: nat, looks: nat)
    requires Usable(j) && p == j.p && target == j.target && bench == j.bench && Prefixed(j, e, midstate)
    requires data != midstate.state && data as object != midstate.buf
    requires data[..] == j.base && first == j.base[19] && GuardSafe(first, last)
    modifies data
    ensures Running(j, first, last, n, data[..], sent, stats, batch)
    ensures n + 1 < last ==> Restarted(restart, looks)
    ensures n != first ==> Allowed(restart, looks)
  {
    hide Running, OnlyNonceDiffers, Prefixed, HashAt, Meets, Found, Sum, Edata, Civiclight.Usable, Restarted,
         Allowed, Succ32, GuardSafe;
    NothingYet(j, last);
    n := first;
    sent, stats, batch, looks := [], [], 0, 0;
    var stopped := false;
    GuardIs(n, last);
    while Succ32(n) < last && !stopped
      invariant GuardSafe(n, last) && (Succ32(n) < last <==> n as int + 1 < last as int)
      invariant Running(j, first, last, n, data[..], sent, stats, batch)
      invariant Prefixed(j, e, midstate)
      invariant stopped ==> Restarted(restart, looks)
      invariant n != first ==> Allowed(restart, looks)
      decreases !stopped, last - n
    {
      looks := looks + 1;
      Seen(restart, looks);
      if restart(looks - 1) {
        stopped := true;
      } else {
        GuardIs(n, last);
        sent, stats, batch := PairStep(data, j, p, target, bench, e, midstate, first, last, n, sent, stats, batch);
        n := n + 2;
        RunningBounds(j, first, last, n, data[..], sent, stats, batch);
        GuardIs(n, last);
      }
    }
  }

  /** The one-nonce loop. */
  method OneLoop(data: array<U32>, ghost j: Job, p: Primitives, target: Limbs, bench: bool, e: seq<U32>,
                  midstate: Sha256Context, first: U32, last: U32, restart: nat -> bool)
    returns (n: U32, sent: seq<Submission>, stats: seq<nat>, batch: nat, looks: nat)
    requires Usable(j) && p == j.p && target == j.target && bench == j.bench && Prefixed(j, e, midstate)
    requires data != midstate.state && data as object != midstate.buf
    requires data[..] == j.base && first == j.base[19]
    modifies data
    ensures Running(j, first, last, n, data[..], sent, stats, batch)
    ensures n < last ==> Restarted(restart, looks)
    ensures n != first ==> Allowed(restart, looks)
  {
    hide Running, OnlyNonceDiffers, Prefixed, HashAt, Meets, Found, Sum, Edata, Civiclight.Usable, Restarted, Allowed;
    NothingYet(j, last);
    n := first;
    sent, stats, batch, looks := [], [], 0, 0;
    var stopped := false;
    while n < last && !stopped
      invariant Running(j, first, last, n, data[..], sent, stats, batch)
      invariant Prefixed(j, e, midstate)
      invariant stopped ==> Restarted(restart, looks)
      invariant n != first ==> Allowed(restart, looks)
      decreases !stopped, last - n
    {
      looks := looks + 1;
      Seen(restart, looks);
      if restart(looks - 1) {
        stopped := true;
      } else {
        sent, stats, batch := OneStep(data, j, p, target, bench, e, midstate, first, last, n, sent, stats, batch, 256);
        n := n + 1;
      }
    }
  }

  /** scanhash_civiclight, two nonces at a time. `restart(k)` is what the k-th read of the restart flag
      returns; `looks` is how many reads there were. Callers pass a first nonce below 2^32 - 1 and a positive
      bound (Slices.GuardSafeHere), which is more than the guard needs. */
  method ScanPairs(p: Primitives, data: array<U32>, target: Limbs, maxNonce: U32, restart: nat -> bool, bench: bool)
    returns (hashesDone: int, sent: seq<Submission>, stats: seq<nat>, looks: nat)
    requires Civiclight.Usable(p) && data.Length >= 20 && GuardSafe(data[19], (maxNonce - 1) % MOD32)
    modifies data
    ensures var j := Job(p, old(data[..]), target, bench);
      var first, last, n := old(data[19]), (maxNonce - 1) % MOD32, data[19];
      && OnlyNonceDiffers(j, data[..]) && Scanned(j, first, last, n, sent, stats)
      && hashesDone == n - first
      && (n < last ==> Restarted(restart, looks)) && (n != first ==> Allowed(restart, looks))
  {
    ghost var j := Job(p, data[..], target, bench);
    hide Running, OnlyNonceDiffers, Prefixed, HashAt, Meets, Found, Sum, Edata, Civiclight.Usable, Restarted,
         Allowed, GuardSafe;
    var first := data[19];
    var last := (maxNonce - 1) % MOD32;
    var n: U32, batch: nat;
    var e := Edata(data[..], bench);
    var midstate := Midstate(j, p, e);
    n, sent, stats, batch, looks := PairLoop(data, j, p, target, bench, e, midstate, first, last, restart);
    RunningBounds(j, first, last, n, data[..], sent, stats, batch);
    var held := false;
    if n < last {
      looks := looks + 1;
      Seen(restart, looks);
      held := restart(looks - 1);
    }
    sent, stats := FinishScan(data, j, p, target, bench, e, midstate, first, last, n, held, sent, stats, batch);
    hashesDone := data[19] - first;
  }

  lemma NothingYet(j: Job, last: U32)
    requires Usable(j)
    ensures Running(j, j.base[19], last, j.base[19], j.base, [], [], 0)
  {
  }

  lemma RunningBounds(j: Job, first: U32, last: U32, n: U32, data: seq<U32>, sent: seq<Submission>,
                      stats: seq<nat>, batch: nat)
    requires Usable(j) && Running(j, first, last, n, data, sent, stats, batch)
    ensures first <= n && (n <= last || n == first)
  {
  }

  method Midstate(ghost j: Job, p: Primitives, e: seq<U32>) returns (midstate: Sha256Context)
    requires Usable(j) && p == j.p && e == Edata(j.base, j.bench)
    ensures fresh(midstate) && fresh(midstate.buf) && fresh(midstate.state)
    ensures Prefixed(j, e, midstate)
  {
    midstate := new Sha256Context(p.sha);
    midstate.Update(Le32s(e[..16]));
    assert [] + Le32s(e[..16]) == Le32s(e[..16]);
  }

  /** The CIVIC_ONEWAY build: the same promise, one nonce at a time. */
  method ScanOneByOne(p: Primitives, data: array<U32>, target: Limbs, maxNonce: U32, restart: nat -> bool, bench: bool)
    returns (hashesDone: int, sent: seq<Submission>, stats: seq<nat>, looks: nat)
    requires Civiclight.Usable(p) && data.Length >= 20
    modifies data
    ensures var j := Job(p, old(data[..]), target, bench);
      var first, last, n := old(data[19]), (maxNonce - 1) % MOD32, data[19];
      && OnlyNonceDiffers(j, data[..]) && Scanned(j, first, last, n, sent, stats)
      && hashesDone == n - first
      && (n < last ==> Restarted(restart, looks)) && (n != first ==> Allowed(restart, looks))
  {
    ghost var j := Job(p, data[..], target, bench);
    hide Running, OnlyNonceDiffers, Prefixed, HashAt, Meets, Found, Sum, Edata, Civiclight.Usable, Restarted, Allowed;
    var first := data[19];
    var last := (maxNonce - 1) % MOD32;
    var n: U32, batch: nat;
    var e := Edata(data[..], bench);
    var midstate := Midstate(j, p, e);
    n, sent, stats, batch, looks := OneLoop(data, j, p, target, bench, e, midstate, first, last, restart);
    RunningBounds(j, first, last, n, data[..], sent, stats, batch);
    var held := false;
    if n < last {
      looks := looks + 1;
      Seen(restart, looks);
      held := restart(looks - 1);
    }
    sent, stats := FinishScan(data, j, p, target, bench, e, midstate, first, last, n, held, sent, stats, batch);
    hashesDone := data[19] - first;
  }
}
