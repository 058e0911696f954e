/** algo/civiclight/civiclight_stats.c: the sample ring behind the hash-rate line. */
module RateRing {
  const SAMPLES := 92

  datatype Sample = Sample(at: real, hashes: real)

  /** The first sample that is not older than the cutoff, or the end. */
  function Oldest(h: seq<Sample>, cutoff: real): (k: nat)
    ensures k <= |h| && (k < |h| ==> h[k].at >= cutoff)
    ensures forall i :: 0 <= i < k ==> h[i].at < cutoff
  {
    if h == [] || h[0].at >= cutoff then 0 else 1 + Oldest(h[1..], cutoff)
  }

  /** The mean rate since a sample. */
  function Since(s: Sample, now: real, hashes: real): real {
    if now - s.at > 0.0 then (hashes - s.hashes) / (now - s.at) else 0.0
  }

  /** The mean rate since the oldest sample of the window that ends now. */
  function Rate(h: seq<Sample>, now: real, hashes: real, window: real): real {
    var k := Oldest(h, now - window);
    if k == |h| then 0.0 else Since(h[k], now, hashes)
  }

  ghost predicate NonDecreasing(h: seq<Sample>) {
    forall i, j :: 0 <= i < j < |h| ==> h[i].at <= h[j].at
  }

  /** Every sample, and the moment of the query, at least 10 s after the sample before it. */
  ghost predicate Spaced(h: seq<Sample>, now: real) {
    (h != [] ==> h[|h| - 1].at + 10.0 <= now)
    && forall i :: 0 <= i < |h| - 1 ==> h[i].at + 10.0 <= h[i + 1].at
  }

  /** A miner at a steady speed, with a sample in the window that is older than now: its speed is what is shown. */
  lemma SteadyRate(h: seq<Sample>, now: real, window: real, speed: real, from: real, i: nat)
    requires NonDecreasing(h) && forall k :: 0 <= k < |h| ==> h[k].hashes == from + speed * h[k].at
    requires i < |h| && now - window <= h[i].at < now
    ensures Rate(h, now, from + speed * now, window) == speed
  {
    var k := Oldest(h, now - window);
    assert k <= i;
    assert h[k].at <= h[i].at;
    var elapsed := now - h[k].at;
    assert from + speed * now - h[k].hashes == speed * elapsed;
    SpeedIs(speed, elapsed);
  }

  lemma SpeedIs(speed: real, elapsed: real)
    requires elapsed > 0.0
    ensures speed * elapsed / elapsed == speed
  {
  }

  function Recent(h: seq<Sample>): seq<Sample> {
    if |h| <= SAMPLES then h else h[|h| - SAMPLES..]
  }

  lemma {:induction false} SpacedApart(h: seq<Sample>, now: real, i: nat, j: nat)
    requires Spaced(h, now) && i <= j < |h|
    ensures h[i].at + 10.0 * (j - i) as real <= h[j].at
    decreases j - i
  {
    if i < j {
      SpacedApart(h, now, i + 1, j);
    }
  }

  lemma SpacedIsNonDecreasing(h: seq<Sample>, now: real)
    requires Spaced(h, now)
    ensures NonDecreasing(h)
  {
    forall i, j | 0 <= i < j < |h| ensures h[i].at <= h[j].at {
      SpacedApart(h, now, i, j);
    }
  }

  lemma OldestIs(h: seq<Sample>, cutoff: real, k: nat)
    requires k <= |h| && (k < |h| ==> h[k].at >= cutoff)
    requires forall i :: 0 <= i < k ==> h[i].at < cutoff
    ensures Oldest(h, cutoff) == k
  {
  }

  /** What has left the ring is older than any window under 930 s. */
  lemma DroppedIsOld(h: seq<Sample>, now: real, i: nat)
    requires Spaced(h, now) && i + SAMPLES < |h|
    ensures h[i].at + 930.0 <= now
  {
    SpacedApart(h, now, i, |h| - 1);
    assert (|h| - 1 - i) as real >= 92.0;
  }

  /** Windows under 930 s cannot tell the ring from the whole history. */
  lemma RecentIsEnough(h: seq<Sample>, now: real, hashes: real, window: real)
    requires Spaced(h, now) && window < 930.0
    ensures Rate(Recent(h), now, hashes, window) == Rate(h, now, hashes, window)
  {
    hide Spaced, Since, Oldest;
    if |h| > SAMPLES {
      var d := |h| - SAMPLES;
      forall i | 0 <= i < d ensures h[i].at < now - window {
        DroppedIsOld(h, now, i);
      }
      SkipOld(h, now - window, d);
    }
  }

  lemma SkipOld(h: seq<Sample>, cutoff: real, d: nat)
    requires d <= |h| && forall i :: 0 <= i < d ==> h[i].at < cutoff
    ensures Oldest(h, cutoff) == d + Oldest(h[d..], cutoff)
  {
    var k := Oldest(h[d..], cutoff);
    forall i | d <= i < d + k ensures h[i].at < cutoff {
      assert h[i] == h[d..][i - d];
    }
    OldestIs(h, cutoff, d + k);
  }

  ghost predicate RingAgrees(window: real) {
    forall h: seq<Sample>, now: real, hashes: real :: Spaced(h, now) ==>
      Rate(Recent(h), now, hashes, window) == Rate(h, now, hashes, window)
  }

  /** One sample every 10 s from 0 on; all the hashes come after the first one. */
  function Steady(n: nat): (h: seq<Sample>)
    ensures |h| == n
    ensures forall i :: 0 <= i < n ==> h[i] == Sample(10.0 * i as real, if i == 0 then 0.0 else 930.0)
  {
    seq(n, i => Sample(10.0 * i as real, if i == 0 then 0.0 else 930.0))
  }

  lemma TooLong(window: real)
    requires window >= 930.0
    ensures !RingAgrees(window)
  {
    var h := Steady(93);
    assert Spaced(h, 930.0);
    OldestIs(h, 930.0 - window, 0);
    var r := Recent(h);
    assert r[0] == h[1];
    OldestIs(r, 930.0 - window, 0);
    assert Rate(h, 930.0, 930.0, window) == 1.0;
    assert Rate(r, 930.0, 930.0, window) == 0.0;
  }

  /** The ring of 92 answers like the unbounded history exactly for windows under 930 s. */
  lemma AgreesExactlyBelow930(window: real)
    ensures RingAgrees(window) <==> window < 930.0
  {
    if window >= 930.0 {
      TooLong(window);
    } else {
      forall h: seq<Sample>, now: real, hashes: real | Spaced(h, now)
        ensures Rate(Recent(h), now, hashes, window) == Rate(h, now, hashes, window)
      {
        RecentIsEnough(h, now, hashes, window);
      }
    }
  }

  function Slot(j: nat): (s: nat)
    ensures s < SAMPLES
  {
    j % SAMPLES
  }

  /** The slot `age` steps behind the next one, as the scan computes it. */
  lemma SlotBehind(n: nat, age: nat)
    requires age <= SAMPLES && age <= n
    ensures (Slot(n) + SAMPLES - age) % SAMPLES == Slot(n - age)
  {
  }

  lemma SlotAfter(n: nat)
    ensures (Slot(n) + 1) % SAMPLES == Slot(n + 1)
  {
  }

  /** Among the last 92 positions no two share a slot. */
  lemma SlotsDiffer(n: nat, j: nat)
    requires j < n < j + SAMPLES
    ensures Slot(j) != Slot(n)
  {
  }

  class Ring {
    var samples: array<Sample>
    var next: nat
    var count: nat
    /** Every sample since the start. */
    ghost var history: seq<Sample>

    ghost predicate Valid()
      reads this, samples
    {
      samples.Length == SAMPLES && next == Slot(|history|)
      && count == (if |history| < SAMPLES then |history| else SAMPLES)
      && forall j :: |history| - count <= j < |history| ==> samples[Slot(j)] == history[j]
    }

    /** The start of the statistics thread. */
    constructor (started: real, hashes: real)
      ensures Valid() && history == [Sample(started, hashes)] && fresh(samples)
    {
      samples := new Sample[SAMPLES](_ => Sample(0.0, 0.0));
      next, count := 1, 1;
      history := [Sample(started, hashes)];
      new;
      samples[0] := Sample(started, hashes);
    }

    /** `age` steps behind the next slot is the sample that many from the end. */
    lemma Behind(age: nat)
      requires Valid() && 1 <= age <= count
      ensures samples.Length == SAMPLES && count == |Recent(history)|
      ensures samples[(next + SAMPLES - age) % SAMPLES] == Recent(history)[count - age]
    {
      SlotBehind(|history|, age);
      hide Slot;
      assert samples[Slot(|history| - age)] == history[|history| - age];
    }

    lemma Counted()
      requires Valid()
      ensures count == |Recent(history)| <= SAMPLES && next < SAMPLES && samples.Length == SAMPLES
    {
    }

    /** window_rate; `oldest` is the age of the sample that the source points to, 0 for none. */
    method WindowRate(now: real, hashes: real, window: real) returns (rate: real)
      requires Valid() && NonDecreasing(history)
      ensures rate == Rate(Recent(history), now, hashes, window)
    {
      hide Slot, NonDecreasing, Valid, Recent, Oldest;
      var cutoff := now - window;
      var oldest: nat := 0;
      ghost var r := Recent(history);
      Counted();
      var age := 1;
      while age <= count
        invariant 1 <= age <= count + 1 && oldest == age - 1
        invariant forall i :: count - oldest <= i < count ==> r[i].at >= cutoff
      {
        Behind(age);
        var idx := (next + SAMPLES - age) % SAMPLES;
        if samples[idx].at < cutoff {
          break;
        }
        oldest := age;
        age := age + 1;
      }
      RecentNonDecreasing(history);
      OldestFromBack(r, cutoff, oldest);
      if oldest == 0 {
        return 0.0;
      }
      Behind(oldest);
      var sample := samples[(next + SAMPLES - oldest) % SAMPLES];
      var elapsed := now - sample.at;
      rate := if elapsed > 0.0 then (hashes - sample.hashes) / elapsed else 0.0;
    }

    /** One round of civiclight_stats_thread: the three rates, and then the new sample into the ring. */
    method Tick(now: real, hashes: real) returns (rate1m: real, rate5m: real, rate15m: real)
      requires Valid() && Spaced(history, now)
      modifies this, samples
      ensures Valid() && samples == old(samples)
      ensures history == old(history) + [Sample(now, hashes)]
      ensures rate1m == Rate(old(history), now, hashes, 60.0)
      ensures rate5m == Rate(old(history), now, hashes, 300.0)
      ensures rate15m == Rate(old(history), now, hashes, 900.0)
    {
      hide Spaced, NonDecreasing, Slot, Valid, Rate, Recent;
      SpacedIsNonDecreasing(history, now);
      rate1m := WindowRate(now, hashes, 60.0);
      rate5m := WindowRate(now, hashes, 300.0);
      rate15m := WindowRate(now, hashes, 900.0);
      RecentIsEnough(history, now, hashes, 60.0);
      RecentIsEnough(history, now, hashes, 300.0);
      RecentIsEnough(history, now, hashes, 900.0);
      Insert(now, hashes);
    }

    method Insert(now: real, hashes: real)
      requires Valid()
      modifies this, samples
      ensures Valid() && samples == old(samples)
      ensures history == old(history) + [Sample(now, hashes)]
    {
      hide Slot;
      var n := |history|;
      forall j | n - count <= j < n && j > n - SAMPLES
        ensures Slot(j) != Slot(n)
      {
        SlotsDiffer(n, j);
      }
      SlotAfter(n);
      samples[next] := Sample(now, hashes);
      next := (next + 1) % SAMPLES;
      if count < SAMPLES {
        count := count + 1;
      }
      history := history + [Sample(now, hashes)];
    }
  }

  lemma RecentNonDecreasing(h: seq<Sample>)
    requires NonDecreasing(h)
    ensures NonDecreasing(Recent(h))
  {
  }

  lemma OldestFromBack(r: seq<Sample>, cutoff: real, n: nat)
    requires NonDecreasing(r) && n <= |r|
    requires forall i :: |r| - n <= i < |r| ==> r[i].at >= cutoff
    requires n < |r| ==> r[|r| - n - 1].at < cutoff
    ensures Oldest(r, cutoff) == |r| - n
  {
    OldestIs(r, cutoff, |r| - n);
  }
}
