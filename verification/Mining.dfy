/** The whole way from a notify to submitted shares: stratum_notify, stratum_gen_work, and the turns of
    main_entry_thread that take the shared work or continue their own. */
module Mining {
  import opened Bytes
  import opened Civiclight
  import Extranonce
  import opened Scan
  import opened Slices
  import opened Stratum
  import opened Target
  import opened Work
  import opened Wrappers

  /** A job together with the extranonce1 of the session that sent it. */
  datatype Session = Session(job: Notify, xnonce1: seq<Byte>)

  /** The work is that of the job, at some nonce: words of its own extranonce2, target of its own difficulty. After
      a stratum reset it may have lost the job's id. */
  ghost predicate WorkOf(p: Primitives, s: Session, data: seq<U32>, info: WorkInfo) {
    Civiclight.Usable(p) && WellFormed(s.job) && |data| == 48 && OwnTarget(info)
    && (info.jobId.Some? ==> info.jobId.value == s.job.jobId)
    && data == WorkData(p, s.job, s.xnonce1, info.xnonce2)[19 := data[19]]
  }

  lemma AnyNonce(p: Primitives, s: Session, data: seq<U32>, info: WorkInfo, n: U32)
    requires WorkOf(p, s, data, info)
    ensures |data| == 48 && WorkOf(p, s, data[19 := n], info)
  {
    hide WorkData, Civiclight.Usable, WellFormed, OwnTarget;
  }

  /** The pool of the session rebuilds a header with the submitted hash, which is as difficult as the work asks: the
      number in its last sixteen bytes is at most 2^96 divided by the work's difficulty. */
  ghost predicate Good(p: Primitives, s: Session, info: WorkInfo, sub: Submission)
    requires Civiclight.Usable(p) && WellFormed(s.job)
  {
    SeenAndGood(Job(p, seq(20, _ => 0), info.target, false), s.job, s.xnonce1, info.xnonce2, sub)
    && info.targetDiff * Extranonce.LeValue(sub.hash[16..]) as real <= 79228162514264337593543950336.0
  }

  ghost predicate AllGood(p: Primitives, s: Session, info: WorkInfo, sent: seq<Submission>)
    requires Civiclight.Usable(p) && WellFormed(s.job)
  {
    forall k :: 0 <= k < |sent| ==> Good(p, s, info, sent[k])
  }

  lemma DifficultEnough(h: seq<Byte>, info: WorkInfo)
    requires |h| == 32 && OwnTarget(info) && Extranonce.LeValue(h) <= Value(info.target)
    ensures info.targetDiff * Extranonce.LeValue(h[16..]) as real <= 79228162514264337593543950336.0
  {
    hide Representable, TargetOf, Value, High128, LimbsOfHash, Extranonce.LeValue;
    LimbsAreBytes(h);
    MeetsTargetExactly(LimbsOfHash(h), info.target, info.targetDiff);
  }

  lemma ScanIsGood(j: Job, s: Session, info: WorkInfo, first: U32, n: U32)
    requires WorkOf(j.p, s, j.base, info) && !j.bench && j.target == info.target && first <= n
    ensures Scan.Usable(j) && AllGood(j.p, s, info, Found(j, first, n))
  {
    hide PoolSees, PowHash, WorkData, Request, Found, Extranonce.LeValue, Target.Value, OwnTarget;
    var found := Found(j, first, n);
    forall k | 0 <= k < |found| ensures Good(j.p, s, info, found[k]) {
      SubmissionsAreGood(j, s.job, s.xnonce1, info.xnonce2, j.base[19], first, n, k);
      DifficultEnough(found[k].hash, info);
    }
  }

  lemma UsableWork(p: Primitives, s: Session, data: seq<U32>, info: WorkInfo)
    requires WorkOf(p, s, data, info)
    ensures Civiclight.Usable(p) && WellFormed(s.job) && |data| == 48
  {
  }

  /** One turn of a worker whose work belongs to `mine`, while the shared work belongs to `shared`: it ends up on
      one of the two, and everything it submits is good for that one and as difficult as that one asks. */
  method Turn(w: Worker, g: GlobalWork, p: Primitives, number: seq<Byte> -> nat, max64: int, restart: nat -> bool,
              ghost mine: Session, ghost shared: Session)
    returns (taken: bool, sent: seq<Submission>)
    requires w.Ready() && w.data.Length == 48 && g.data != w.data
    requires WorkOf(p, shared, g.data[..], g.info)
    requires !ForceNewWork(true, w.info.jobId, g.info.jobId, number) ==> WorkOf(p, mine, w.data[..], w.info)
    modifies w, w.data
    ensures w.Ready() && (taken || old(w.Valid()) ==> w.Valid())
    ensures w.info == if taken then g.info else old(w.info)
    ensures WorkOf(p, if taken then shared else mine, w.data[..], w.info)
    ensures AllGood(p, if taken then shared else mine, w.info, sent)
  {
    hide *;
    UsableWork(p, shared, g.data[..], g.info);
    ghost var before := w.data[..];
    ghost var base;
    taken, sent, base := RunPass(w, p, g.data[..], g.info, number, max64, restart);
    TurnEnds(p, if taken then shared else mine, if taken then g.data[..] else before, base, w.data[..], w.info, sent);
  }

  /** The pass of a turn with a stratum: where it started, and what it sent. */
  method RunPass(w: Worker, p: Primitives, gData: seq<U32>, gInfo: WorkInfo, number: seq<Byte> -> nat, max64: int,
                 restart: nat -> bool)
    returns (taken: bool, sent: seq<Submission>, ghost base: seq<U32>)
    requires Civiclight.Usable(p) && w.Ready() && w.data.Length == |gData| == 48
    modifies w, w.data
    ensures w.Ready() && (taken || old(w.Valid()) ==> w.Valid())
    ensures w.info == if taken then gInfo else old(w.info)
    ensures !taken ==> !ForceNewWork(true, old(w.info.jobId), gInfo.jobId, number)
    ensures |base| == 48 && base == (if taken then gData else old(w.data[..]))[19 := base[19]]
    ensures w.data[..] == base[19 := w.data[19]] && base[19] <= w.data[19]
    ensures var j := Job(p, base, w.info.target, false);
      Scan.Usable(j) && sent == Found(j, base[19], w.data[19])
  {
    hide Found, Civiclight.Usable, Worker.Valid, Slices.Ended, Bound, SliceStart, SliceEnd, ForceNewWork;
    ghost var before := w.data[..];
    var looks;
    taken, sent, looks := w.Pass(p, gData, gInfo, true, false, number, max64, restart);
    base := w.Base(before, gData, taken);
  }

  /** A turn that starts from work of a session and ends with what a scan finds. */
  lemma TurnEnds(p: Primitives, s: Session, from: seq<U32>, base: seq<U32>, after: seq<U32>, info: WorkInfo,
                 sent: seq<Submission>)
    requires WorkOf(p, s, from, info) && |from| == |base| == |after| == 48
    requires base == from[19 := base[19]] && after == base[19 := after[19]] && base[19] <= after[19]
    requires var j := Job(p, base, info.target, false);
      Scan.Usable(j) && sent == Found(j, base[19], after[19])
    ensures Civiclight.Usable(p) && WellFormed(s.job)
    ensures WorkOf(p, s, after, info) && AllGood(p, s, info, sent)
  {
    hide *;
    UsableWork(p, s, from, info);
    AnyNonce(p, s, from, info, base[19]);
    AnyNonce(p, s, base, info, after[19]);
    ScanIsGood(Job(p, base, info.target, false), s, info, base[19], after[19]);
  }

  /** The notify of a new job and the first generation after it publish work of that job, and leave the counter
      ready for the next generation. */
  method OnNewJob(ctx: StratumContext, g: GlobalWork, p: Primitives, m: Notify, height: nat, epoch: nat, factor: real)
    requires Civiclight.Usable(p) && WellFormed(m) && g.data.Length == 48
    requires !(ctx.hasJob && ctx.jobId == m.jobId)
    requires factor > 0.0 && Representable(ctx.nextDiff / factor)
    modifies ctx, g, g.data
    ensures ctx.xnonce1 == old(ctx.xnonce1) && ctx.xnonce2Size == old(ctx.xnonce2Size)
    ensures g.info.xnonce2 == Zeros(ctx.xnonce2Size) && g.info.targetDiff == old(ctx.nextDiff) / factor
    ensures WorkOf(p, Session(m, ctx.xnonce1), g.data[..], g.info)
    ensures ctx.Holds(m, Extranonce.Next(Zeros(ctx.xnonce2Size)))
  {
    Fields(m);
    hide *;
    var ok := ctx.OnNotify(m, height);
    ctx.InBounds(m, Zeros(ctx.xnonce2Size));
    ctx.GenWork(p, g, epoch, factor, m, ctx.xnonce1, Zeros(ctx.xnonce2Size));
    ctx.HoldsIs(m, Extranonce.Next(Zeros(ctx.xnonce2Size)));
    FreshWork(p, Session(m, ctx.xnonce1), g.info);
  }

  lemma FreshWork(p: Primitives, s: Session, info: WorkInfo)
    requires Civiclight.Usable(p) && WellFormed(s.job) && info.jobId == Some(s.job.jobId) && OwnTarget(info)
    ensures WorkOf(p, s, WorkData(p, s.job, s.xnonce1, info.xnonce2), info)
  {
    hide WorkData, Civiclight.Usable, WellFormed, OwnTarget;
  }
}
