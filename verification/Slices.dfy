/** soj_work.c and main_entry_thread: nonce slices, when a worker takes fresh work, and how far one pass scans. */
module Slices {
  import opened Bytes
  import opened Civiclight
  import opened Scan
  import opened Work
  import opened Wrappers

  // ----- slices -----

  /** opt_n_threads as the command line allows it. */
  predicate ThreadCount(n: int) {
    1 <= n <= 9999
  }

  /** 0xffffffffU / opt_n_threads */
  function Width(n: int): (q: U32)
    requires ThreadCount(n)
    ensures 429539 <= q && n * q < MOD32
  {
    var q := 0xffff_ffff / n;
    assert n * q <= 0xffff_ffff;
    WidthLarge(n, q);
    q
  }

  lemma WidthLarge(n: int, q: int)
    requires ThreadCount(n) && q == 0xffff_ffff / n
    ensures q >= 429539
  {
    assert n * (q + 1) > 0xffff_ffff;
    Multiples(n, q + 1 - 429539);
    assert n * (q + 1 - 429539) == n * (q + 1) - n * 429539;
  }

  /** The first nonce of a thread, in 32-bit arithmetic. */
  function SliceStart(n: int, thr: int): U32
    requires ThreadCount(n)
  {
    Width(n) * thr % MOD32
  }

  /** The end nonce of a thread, in 32-bit arithmetic. */
  function SliceEnd(n: int, thr: int): U32
    requires ThreadCount(n)
  {
    (Width(n) * (thr + 1) % MOD32 - 0x20) % MOD32
  }

  /** Neither product wraps, and the slice is as wide as promised. */
  lemma SliceBounds(n: int, thr: int)
    requires ThreadCount(n) && 0 <= thr < n
    ensures SliceStart(n, thr) == Width(n) * thr
    ensures SliceEnd(n, thr) == Width(n) * (thr + 1) - 0x20 == SliceStart(n, thr) + Width(n) - 0x20
    ensures SliceStart(n, thr) < SliceEnd(n, thr) < MOD32 - 0x20
  {
    var q := Width(n);
    assert q * (thr + 1) == q * thr + q;
    assert 0 <= q * thr;
    assert q * (thr + 1) <= q * n;
    NoWrap(q * thr);
    NoWrap(q * (thr + 1));
    NoWrap(q * (thr + 1) - 0x20);
  }

  lemma NoWrap(x: int)
    requires 0 <= x < MOD32
    ensures x % MOD32 == x
  {
  }

  /** Slices of different threads do not meet. */
  lemma SlicesDisjoint(n: int, i: int, k: int)
    requires ThreadCount(n) && 0 <= i < k < n
    ensures SliceEnd(n, i) < SliceStart(n, k)
  {
    hide *;
    SliceBounds(n, i);
    SliceBounds(n, k);
    AtLeast(Width(n), i + 1, k);
  }

  lemma AtLeast(q: nat, i: int, k: int)
    requires i <= k
    ensures q * i <= q * k
  {
  }

  // ----- one worker -----

  function Range(lo: int, hi: int): (r: seq<int>)
    ensures |r| == if lo <= hi then hi - lo else 0
    ensures forall i :: 0 <= i < |r| ==> r[i] == lo + i
    decreases hi - lo
  {
    if lo < hi then Range(lo, hi - 1) + [hi - 1] else []
  }

  ghost predicate Increasing(s: seq<int>) {
    forall i, k :: 0 <= i < k < |s| ==> s[i] < s[k]
  }

  /** One work a worker took: its first 19 words, and the nonces hashed on it, in order. */
  datatype Taking = Taking(words: seq<U32>, nonces: seq<int>)

  /** The verdict of the job id comparison in std_get_new_work; `number` is strtoul in base 16. */
  predicate ForceNewWork(haveStratum: bool, mine: Option<seq<Byte>>, theirs: Option<seq<Byte>>,
                         number: seq<Byte> -> nat) {
    haveStratum && (mine.None? || theirs.None? || number(mine.value) != number(theirs.value))
  }

  /** max64 nonces ahead, 1000 if there is no estimate, and not past the end. */
  function Bound(endNonce: int, nonce: int, max64: int): int {
    var ahead := nonce + if max64 <= 0 then 1000 else max64;
    if ahead <= endNonce then ahead else endNonce
  }

  lemma BoundInside(endNonce: int, nonce: int, max64: int)
    requires nonce <= endNonce
    ensures nonce <= Bound(endNonce, nonce, max64) <= endNonce
  {
  }

  /** A scan from first that was to end at last and came to n. */
  ghost predicate Ended(first: int, n: int, last: int, restart: nat -> bool, looks: nat) {
    (n <= last || n == first)
    && (n < last ==> Restarted(restart, looks)) && (n != first ==> Allowed(restart, looks))
  }

  lemma FirstEnd(n: int, thr: int)
    requires ThreadCount(n) && 0 <= thr < n
    ensures (0xffff_ffff / n * (thr + 1) % MOD32 - n) % MOD32 == SliceEnd(n, thr) + 0x20 - n
    ensures 0 < SliceEnd(n, thr) + 0x20 - n < MOD32 - 1
  {
    SliceBounds(n, thr);
    WidthOf(n);
    var q := Width(n);
    assert q * (thr + 1) == SliceEnd(n, thr) + 0x20;
    assert q * (thr + 1) == q * thr + q && q * thr >= 0;
    NoWrap(q * (thr + 1));
    NoWrap(q * (thr + 1) - n);
  }

  lemma WidthOf(n: int)
    requires ThreadCount(n)
    ensures Width(n) >= 429539
  {
  }

  class Worker {
    const n: int
    const thr: int
    const data: array<U32>
    var info: WorkInfo
    var endNonce: U32
    /** Nonces hashed on the current work, in order; and every work taken so far, the current one last. */
    ghost var hashed: seq<int>
    ghost var takings: seq<Taking>

    ghost predicate Thread() {
      ThreadCount(n) && 0 <= thr < n
    }

    /** From the start on, with or without work. */
    ghost predicate Ready()
      reads this
    {
      Thread() && data.Length >= 20 && 0 < endNonce < MOD32 - 1 && Known(takings)
    }

    /** Between passes, once work has been taken: the slice, the next nonce and what was hashed agree. */
    ghost predicate Valid()
      reads this, data
    {
      Ready()
      && endNonce == SliceEnd(n, thr) && SliceStart(n, thr) <= data[19] <= endNonce
      && InSlice(hashed, data[19])
      && takings != [] && takings[|takings| - 1] == Taking(data[..19], hashed)
    }

    /** Strictly increasing, in this thread's slice and below the next nonce. */
    ghost predicate InSlice(s: seq<int>, next: int) {
      ThreadCount(n)
      && Increasing(s) && forall x :: x in s ==> SliceStart(n, thr) <= x < next && x < SliceEnd(n, thr)
    }

    /** On no work has this thread left its slice or gone back in it. */
    ghost predicate Known(ts: seq<Taking>) {
      forall i :: 0 <= i < |ts| ==> InSlice(ts[i].nonces, MOD32)
    }

    /** main_entry_thread: zeroed work and the initial end nonce. */
    constructor (n: int, thr: int)
      requires ThreadCount(n) && 0 <= thr < n
      ensures this.n == n && this.thr == thr && data.Length == 48 && fresh(data)
      ensures Ready() && hashed == [] && takings == [] && info == NO_WORK
      ensures data[..] == seq(48, _ => 0) && endNonce as int == SliceEnd(n, thr) + 0x20 - n
    {
      this.n := n;
      this.thr := thr;
      data := new U32[48](_ => 0);
      endNonce := (0xffff_ffff / n * (thr + 1) % MOD32 - n) % MOD32;
      info, hashed, takings := NO_WORK, [], [];
      new;
      FirstEnd(n, thr);
      hide SliceEnd, Width;
    }

    /** std_get_new_work, with the work_copy that taking work amounts to. Returns whether work was taken. */
    method GetNewWork(gData: seq<U32>, gInfo: WorkInfo, haveStratum: bool, number: seq<Byte> -> nat)
      returns (taken: bool)
      requires Ready() && data.Length == |gData|
      modifies this, data
      ensures taken <==> ForceNewWork(haveStratum, old(info.jobId), gInfo.jobId, number)
                         || old(data[19]) >= old(endNonce) || old(data[..19]) != gData[..19]
      ensures !haveStratum ==> (taken <==> old(data[19]) >= old(endNonce) || old(data[..19]) != gData[..19])
      ensures Ready() && data[19] <= endNonce && (taken || old(Valid()) ==> Valid())
      ensures taken ==> hashed == [] && data[..] == gData[19 := SliceStart(n, thr)]
      ensures info == if taken then gInfo else old(info)
      ensures takings == old(takings) + if taken then [Taking(gData[..19], [])] else []
      ensures !taken ==> hashed == old(hashed) && endNonce == old(endNonce) && old(data[19]) as int + 1 < MOD32
      ensures !taken ==> data[..] == old(data[..])[19 := old(data[19]) as int + 1]
    {
      var force := false;
      if haveStratum {
        force := true;
        if info.jobId.Some? && gInfo.jobId.Some? {
          force := number(info.jobId.value) != number(gInfo.jobId.value);
        }
      }
      taken := force || data[19] >= endNonce || data[..19] != gData[..19];
      SliceBounds(n, thr);
      hide SliceStart, SliceEnd, Width, InSlice;
      if taken {
        forall i | 0 <= i < data.Length {
          data[i] := gData[i];
        }
        info := gInfo;
        data[19] := Width(n) * thr % MOD32;
        endNonce := (Width(n) * (thr + 1) % MOD32 - 0x20) % MOD32;
        hashed := [];
        assert data[..19] == gData[..19];
        takings := takings + [Taking(gData[..19], [])];
        FirstNonce();
      } else {
        data[19] := data[19] + 1;
        assert data[..19] == old(data[..19]);
        if old(Valid()) {
          InSliceLater(hashed, data[19] as int - 1, data[19]);
        }
      }
    }

    lemma FirstNonce()
      requires Thread()
      ensures Width(n) * thr % MOD32 == SliceStart(n, thr)
      ensures (Width(n) * (thr + 1) % MOD32 - 0x20) % MOD32 == SliceEnd(n, thr)
      ensures InSlice([], SliceStart(n, thr)) && InSlice([], MOD32)
    {
    }

    lemma InSliceLater(s: seq<int>, next: int, later: int)
      requires InSlice(s, next) && next <= later
      ensures InSlice(s, later)
    {
    }

    /** The nonce bound of a pass: about max64 hashes ahead, never past the end nonce. */
    method MaxNonce(max64: int) returns (maxNonce: U32)
      requires Ready() && data[19] <= endNonce
      ensures maxNonce as int == Bound(endNonce, data[19], max64)
      ensures 0 < maxNonce && data[19] <= maxNonce
    {
      var m := if max64 <= 0 then 1000 else max64;
      if data[19] + m > endNonce {
        maxNonce := endNonce;
      } else {
        maxNonce := data[19] + m;
      }
    }

    /** The work words that a turn scans from. */
    ghost function Base(data: seq<U32>, gData: seq<U32>, taken: bool): (b: seq<U32>)
      requires ThreadCount(n) && |data| == |gData| >= 20
      ensures |b| == |data|
    {
      if taken then gData[19 := SliceStart(n, thr)] else data[19 := (data[19] as int + 1) % MOD32]
    }

    /** One turn of the mining loop: take or continue work, then scan. Nonces hashed on one work stay
        strictly increasing and in the slice, every turn that continues eats into what is left, and what is
        submitted is what a one-at-a-time scan of the turn's nonces finds against the work's own target.
        The turn gets to one short of its bound unless a restart was seen, and nowhere unless none was. */
    method Pass(p: Primitives, gData: seq<U32>, gInfo: WorkInfo, haveStratum: bool, bench: bool,
                number: seq<Byte> -> nat, max64: int, restart: nat -> bool)
      returns (taken: bool, sent: seq<Submission>, looks: nat)
      requires Civiclight.Usable(p) && Ready() && data.Length == |gData|
      modifies this, data
      ensures Ready() && (taken || old(Valid()) ==> Valid())
      ensures taken <==> ForceNewWork(haveStratum, old(info.jobId), gInfo.jobId, number)
                         || old(data[19] >= endNonce) || old(data[..19]) != gData[..19]
      ensures !haveStratum ==> (taken <==> old(data[19] >= endNonce) || old(data[..19]) != gData[..19])
      ensures info == if taken then gInfo else old(info)
      ensures var base := Base(old(data[..]), gData, taken);
        && data[..] == base[19 := data[19]] && base[19] <= data[19]
        && sent == Found(Job(p, base, info.target, bench), base[19], data[19])
        && Ended(base[19], data[19], Bound(endNonce, base[19], max64) - 1, restart, looks)
      ensures taken ==> hashed == Range(SliceStart(n, thr), data[19])
      ensures !taken ==> hashed == old(hashed) + Range(old(data[19]) as int + 1, data[19])
      ensures !taken ==> endNonce - data[19] < old(endNonce - data[19])
      ensures taken ==> takings == old(takings) + [Taking(gData[..19], hashed)]
      ensures !taken && old(Valid()) ==>
        takings == old(takings)[|old(takings)| - 1 := Taking(old(data[..19]), hashed)]
      ensures !taken && !old(Valid()) ==> takings == old(takings)
    {
      hide Found, Sum, InSlice, Civiclight.Usable, Restarted, Allowed, SliceStart, SliceEnd, Width, ForceNewWork,
           GuardSafe, Bound;
      taken := GetNewWork(gData, gInfo, haveStratum, number);
      assert data[..] == Base(old(data[..]), gData, taken);
      var first := data[19];
      var maxNonce := MaxNonce(max64);
      GuardSafeHere(first, maxNonce);
      ghost var before, words, valid := hashed, data[..19], taken || old(Valid());
      var done, stats;
      done, sent, stats, looks := ScanPairs(p, data, info.target, maxNonce, restart, bench);
      BoundInside(endNonce, first, max64);
      hashed := before + Range(first, data[19]);
      assert data[..19] == words;
      if valid {
        InSliceExtends(before, first, data[19]);
        InSliceLater(hashed, data[19], MOD32);
        takings := takings[|takings| - 1 := Taking(words, hashed)];
      }
    }

    lemma InSliceExtends(s: seq<int>, first: int, next: int)
      requires ThreadCount(n) && InSlice(s, first) && SliceStart(n, thr) <= first <= next <= SliceEnd(n, thr)
      ensures InSlice(s + Range(first, next), next)
    {
      var t := s + Range(first, next);
      forall x | x in t ensures SliceStart(n, thr) <= x < next {
        if x !in s {
          assert x in Range(first, next);
        }
      }
      forall i, k | 0 <= i < k < |t| ensures t[i] < t[k] {
        if i < |s| {
          assert s[i] in s;
        }
      }
    }
  }

  /** What a scan may count on: its first nonce is not the last 32-bit one. */
  lemma BoundsForScan(n: int, thr: int, nonce: int)
    requires ThreadCount(n) && 0 <= thr < n && 0 <= nonce <= SliceEnd(n, thr)
    ensures nonce < MOD32 - 1
  {
    SliceBounds(n, thr);
  }

  lemma GuardSafeHere(first: U32, maxNonce: U32)
    requires first < MOD32 - 1 && maxNonce > 0
    ensures (maxNonce - 1) % MOD32 == maxNonce - 1 && GuardSafe(first, maxNonce - 1)
  {
  }

  // ----- no work twice -----

  /** Hashing a of taking i and hashing b of taking j are the same nonce on the same 19 words. */
  ghost predicate Repeat(ts: seq<Taking>, i: int, a: int, j: int, b: int) {
    0 <= i < |ts| && 0 <= a < |ts[i].nonces| && 0 <= j < |ts| && 0 <= b < |ts[j].nonces|
    && ts[i].words == ts[j].words && ts[i].nonces[a] == ts[j].nonces[b]
  }

  ghost predicate HashedTwice(ts: seq<Taking>) {
    exists i, a, j, b :: Repeat(ts, i, a, j, b) && (i, a) != (j, b)
  }

  ghost predicate SameWords(ts: seq<Taking>, i: int, j: int) {
    0 <= i < j < |ts| && ts[i].words == ts[j].words
  }

  /** Work was taken whose first 19 words are those of work taken before. */
  ghost predicate Retaken(ts: seq<Taking>) {
    exists i, j :: SameWords(ts, i, j)
  }

  ghost predicate Share(s: seq<int>, t: seq<int>) {
    exists x :: x in s && x in t
  }

  /** The turn that took each work hashed at least its first nonce. */
  ghost predicate AllStarted(ts: seq<Taking>, start: int) {
    forall i :: 0 <= i < |ts| ==> ts[i].nonces != [] && ts[i].nonces[0] == start
  }

  /** Two takings of the same words share a nonce. */
  ghost predicate SharedNonce(ts: seq<Taking>, i: int, j: int) {
    SameWords(ts, i, j) && Share(ts[i].nonces, ts[j].nonces)
  }

  /** Over any turns of a worker, a nonce is hashed twice on the same words exactly when two takings of the same
      words share a nonce: within one taking it never happens. */
  lemma TwiceExactlyWhenShared(w: Worker, ts: seq<Taking>)
    requires w.Known(ts)
    ensures HashedTwice(ts) <==> exists i, j :: SharedNonce(ts, i, j)
  {
    if HashedTwice(ts) {
      var i, a, j, b :| Repeat(ts, i, a, j, b) && (i, a) != (j, b);
      RepeatIsShared(w, ts, i, a, j, b);
    }
    if i, j :| SharedNonce(ts, i, j) {
      SharedIsRepeat(ts, i, j);
    }
  }

  lemma RepeatIsShared(w: Worker, ts: seq<Taking>, i: int, a: int, j: int, b: int)
    requires w.Known(ts) && Repeat(ts, i, a, j, b) && (i, a) != (j, b)
    ensures exists i, j :: SharedNonce(ts, i, j)
  {
    hide SliceStart, SliceEnd;
    var x := ts[i].nonces[a];
    assert x in ts[i].nonces && x in ts[j].nonces;
    if i < j {
      assert SharedNonce(ts, i, j);
    } else if j < i {
      assert SharedNonce(ts, j, i);
    }
  }

  lemma SharedIsRepeat(ts: seq<Taking>, i: int, j: int)
    requires SharedNonce(ts, i, j)
    ensures HashedTwice(ts)
  {
    var x :| x in ts[i].nonces && x in ts[j].nonces;
    var a :| 0 <= a < |ts[i].nonces| && ts[i].nonces[a] == x;
    var b :| 0 <= b < |ts[j].nonces| && ts[j].nonces[b] == x;
    assert Repeat(ts, i, a, j, b);
  }

  /** Whatever the turns: nothing is hashed twice unless work was taken whose words were taken before. */
  lemma TwiceOnlyWhenRetaken(w: Worker, ts: seq<Taking>)
    requires w.Known(ts)
    ensures HashedTwice(ts) ==> Retaken(ts)
  {
    hide HashedTwice;
    TwiceExactlyWhenShared(w, ts);
    if HashedTwice(ts) {
      var i, j :| SharedNonce(ts, i, j);
      assert SameWords(ts, i, j);
    }
  }

  /** When every taking got to its first nonce, that is exactly when the same words were taken twice. */
  lemma TwiceExactlyWhenRetaken(w: Worker, ts: seq<Taking>)
    requires w.Thread() && w.Known(ts) && AllStarted(ts, SliceStart(w.n, w.thr))
    ensures HashedTwice(ts) <==> Retaken(ts)
  {
    hide SliceStart, SliceEnd, HashedTwice;
    TwiceExactlyWhenShared(w, ts);
    if i, j :| SharedNonce(ts, i, j) {
      assert SameWords(ts, i, j);
    }
    if i, j :| SameWords(ts, i, j) {
      var x: int := SliceStart(w.n, w.thr);
      assert x == ts[i].nonces[0] && x == ts[j].nonces[0];
      assert x in ts[i].nonces && x in ts[j].nonces;
      assert Share(ts[i].nonces, ts[j].nonces);
      assert SharedNonce(ts, i, j);
    }
  }

  /** Two takings of the same words that both got to the first nonce. */
  lemma BothStarted(ts: seq<Taking>, i: int, j: int, start: int)
    requires SameWords(ts, i, j) && ts[i].nonces != [] && ts[j].nonces != []
    requires ts[i].nonces[0] == start && ts[j].nonces[0] == start
    ensures HashedTwice(ts) && Retaken(ts)
  {
    assert Repeat(ts, i, 0, j, 0);
  }

  lemma StartedRange(lo: int, hi: int)
    ensures lo < hi ==> Range(lo, hi) != [] && Range(lo, hi)[0] == lo
  {
  }

  /** Unless it is restarted, a turn that takes work and may do two hashes gets to its first nonce. */
  lemma GetsStarted(w: Worker, n: int, max64: int, restart: nat -> bool, looks: nat)
    requires w.Thread() && (max64 <= 0 || max64 >= 2) && forall k :: !restart(k)
    requires var start := SliceStart(w.n, w.thr);
      start <= n && Ended(start, n, Bound(SliceEnd(w.n, w.thr), start, max64) - 1, restart, looks)
    ensures n > SliceStart(w.n, w.thr)
  {
    SliceBounds(w.n, w.thr);
    WidthOf(w.n);
  }

  /** Two turns while the shared job id is NULL: both take the same words, so the thread's first nonce is hashed
      twice on them as soon as both turns get to it, and they do when neither is restarted. */
  method TurnsAfterReset(w: Worker, p: Primitives, gData: seq<U32>, gInfo: WorkInfo, number: seq<Byte> -> nat,
                         max64: int, restart: nat -> bool)
    requires Civiclight.Usable(p) && w.Ready() && w.data.Length == |gData| && gInfo.jobId == None
    modifies w, w.data
    ensures w.Valid() && |w.takings| == |old(w.takings)| + 2 && w.takings[..|old(w.takings)|] == old(w.takings)
    ensures var a, b := w.takings[|w.takings| - 2], w.takings[|w.takings| - 1];
      a.words == b.words == gData[..19]
      && (a.nonces != [] && b.nonces != [] ==> HashedTwice(w.takings))
    ensures Retaken(w.takings)
    ensures (max64 <= 0 || max64 >= 2) && (forall k :: !restart(k)) ==> HashedTwice(w.takings)
  {
    hide Found, SliceStart, SliceEnd, Bound, Ended, HashedTwice, Retaken, Worker.InSlice, Worker.Known,
         Civiclight.Usable;
    ghost var start := SliceStart(w.n, w.thr) as int;
    var taken, sent, looks := w.Pass(p, gData, gInfo, true, false, number, max64, restart);
    ghost var n1 := w.data[19];
    if (max64 <= 0 || max64 >= 2) && forall k :: !restart(k) {
      GetsStarted(w, n1, max64, restart, looks);
    }
    taken, sent, looks := w.Pass(p, gData, gInfo, true, false, number, max64, restart);
    ghost var n2 := w.data[19];
    if (max64 <= 0 || max64 >= 2) && forall k :: !restart(k) {
      GetsStarted(w, n2, max64, restart, looks);
    }
    ghost var ts := w.takings;
    assert ts == old(w.takings) + [Taking(gData[..19], Range(start, n1)), Taking(gData[..19], Range(start, n2))];
    StartedRange(start, n1);
    StartedRange(start, n2);
    TwoTakings(old(w.takings), gData[..19], Range(start, n1), Range(start, n2), start);
  }

  lemma TwoTakings(ts: seq<Taking>, words: seq<U32>, s: seq<int>, t: seq<int>, start: int)
    requires (s != [] ==> s[0] == start) && (t != [] ==> t[0] == start)
    ensures var all := ts + [Taking(words, s), Taking(words, t)];
      Retaken(all) && (s != [] && t != [] ==> HashedTwice(all))
  {
    hide HashedTwice;
    var all := ts + [Taking(words, s), Taking(words, t)];
    assert SameWords(all, |ts|, |ts| + 1);
    if s != [] && t != [] {
      BothStarted(all, |ts|, |ts| + 1, start);
    }
  }

  /** A taking that is cut off before its first nonce goes on one nonce further: then words may be taken twice and
      nothing hashed twice. */
  lemma CutOffBeforeStart(w: Worker, words: seq<U32>)
    requires w.Thread()
    ensures var start := SliceStart(w.n, w.thr) as int;
      var ts := [Taking(words, [start]), Taking(words, [start + 1])];
      w.Known(ts) && Retaken(ts) && !HashedTwice(ts)
  {
    var start := SliceStart(w.n, w.thr) as int;
    var ts := [Taking(words, [start]), Taking(words, [start + 1])];
    SliceBounds(w.n, w.thr);
    WidthOf(w.n);
    hide SliceStart, SliceEnd, Width, HashedTwice;
    assert SameWords(ts, 0, 1);
    TwiceExactlyWhenShared(w, ts);
    assert forall i, j :: SameWords(ts, i, j) ==> i == 0 && j == 1;
  }

  /** Three turns of a new worker that come to this history: one nonce of job a, then job b with the same
      words, restarted at once, and then one more turn on it. */
  method CutOffTurns(w: Worker, p: Primitives, gData: seq<U32>, a: WorkInfo, b: WorkInfo, number: seq<Byte> -> nat)
    requires Civiclight.Usable(p) && w.Ready() && w.data.Length == |gData| && w.info.jobId == None && w.takings == []
    requires a.jobId.Some? && b.jobId.Some? && number(a.jobId.value) != number(b.jobId.value)
    modifies w, w.data
    ensures var start := SliceStart(w.n, w.thr) as int;
      w.takings == [Taking(gData[..19], [start]), Taking(gData[..19], [start + 1])]
    ensures w.Valid() && Retaken(w.takings) && !HashedTwice(w.takings)
  {
    hide Found, SliceStart, SliceEnd, HashedTwice, Retaken, Worker.InSlice, Worker.Known, Worker.Valid,
         Civiclight.Usable, Range;
    ghost var start := SliceStart(w.n, w.thr) as int;
    var go, stop := (_: nat) => false, (_: nat) => true;
    FirstTurn(w, p, gData, a, number, go);
    FirstTurn(w, p, gData, b, number, stop);
    NextTurn(w, p, gData, b, number, go);
    ghost var ts := [Taking(gData[..19], [start]), Taking(gData[..19], [start + 1])];
    assert w.takings == ts;
    CutOffBeforeStart(w, gData[..19]);
  }

  /** A turn on a new job with an estimate of two hashes: it hashes the first nonce, or nothing if restarted at once. */
  method FirstTurn(w: Worker, p: Primitives, gData: seq<U32>, info: WorkInfo, number: seq<Byte> -> nat,
                   restart: nat -> bool)
    requires Civiclight.Usable(p) && w.Ready() && w.data.Length == |gData|
    requires ForceNewWork(true, w.info.jobId, info.jobId, number)
    modifies w, w.data
    ensures w.Ready() && w.Valid() && w.info == info && w.data[..19] == gData[..19]
    ensures var start := SliceStart(w.n, w.thr) as int;
      && ((forall k :: !restart(k)) ==> w.data[19] == start + 1 && w.hashed == [start])
      && ((forall k :: restart(k)) ==> w.data[19] == start && w.hashed == [])
    ensures w.takings == old(w.takings) + [Taking(gData[..19], w.hashed)]
  {
    hide Found, SliceStart, SliceEnd, Worker.InSlice, Worker.Known, Civiclight.Usable, Bound, Ended, Range,
         ForceNewWork;
    ghost var start := SliceStart(w.n, w.thr) as int;
    EnoughRoom(w.n, w.thr);
    FewNonces(start);
    var taken, sent, looks := w.Pass(p, gData, info, true, false, number, 2, restart);
    OneOrNone(start, w.data[19], w.endNonce, restart, looks);
  }

  /** The turn after one that was restarted at once, on the same job, hashes the second nonce. */
  method NextTurn(w: Worker, p: Primitives, gData: seq<U32>, info: WorkInfo, number: seq<Byte> -> nat,
                  restart: nat -> bool)
    requires Civiclight.Usable(p) && w.Ready() && w.Valid() && w.data.Length == |gData|
    requires w.info == info && info.jobId.Some? && w.data[..19] == gData[..19] && forall k :: !restart(k)
    requires w.hashed == [] && w.data[19] == SliceStart(w.n, w.thr)
    modifies w, w.data
    ensures w.Ready() && w.Valid() && old(w.takings) != []
    ensures w.takings == old(w.takings)[..|old(w.takings)| - 1]
                         + [Taking(gData[..19], [SliceStart(w.n, w.thr) as int + 1])]
  {
    hide Found, SliceStart, SliceEnd, Worker.InSlice, Worker.Known, Civiclight.Usable, Bound, Ended, Range;
    ghost var start := SliceStart(w.n, w.thr) as int;
    EnoughRoom(w.n, w.thr);
    FewNonces(start + 1);
    var taken, sent, looks := w.Pass(p, gData, info, true, false, number, 2, restart);
    OneOrNone(start + 1, w.data[19], w.endNonce, restart, looks);
    ghost var last := Taking(gData[..19], [start + 1]);
    assert w.hashed == [start + 1];
    assert w.takings == old(w.takings)[|old(w.takings)| - 1 := last];
  }

  lemma FewNonces(first: int)
    ensures Range(first, first) == [] && Range(first, first + 1) == [first]
  {
  }

  /** A turn with an estimate of two hashes does one, and none if it is restarted at once. */
  lemma OneOrNone(first: int, n: int, endNonce: int, restart: nat -> bool, looks: nat)
    requires first + 2 <= endNonce && first <= n
    requires Ended(first, n, Bound(endNonce, first, 2) - 1, restart, looks)
    ensures (forall k :: !restart(k)) ==> n == first + 1
    ensures (forall k :: restart(k)) ==> n == first
  {
  }

  lemma EnoughRoom(n: int, thr: int)
    requires ThreadCount(n) && 0 <= thr < n
    ensures SliceStart(n, thr) as int + 3 <= SliceEnd(n, thr) as int
  {
    SliceBounds(n, thr);
    WidthOf(n);
  }

  /** Two different workers never hash the same nonce, whatever works they have taken. */
  lemma WorkersNeverCollide(a: Worker, b: Worker, i: nat, k: nat)
    requires a.Thread() && b.Thread() && a.n == b.n && a.thr != b.thr
    requires a.Known(a.takings) && b.Known(b.takings) && i < |a.takings| && k < |b.takings|
    ensures !Share(a.takings[i].nonces, b.takings[k].nonces)
  {
    hide SliceStart, SliceEnd, Increasing;
    if a.thr < b.thr {
      SlicesDisjoint(a.n, a.thr, b.thr);
    } else {
      SlicesDisjoint(a.n, b.thr, a.thr);
    }
  }
}
