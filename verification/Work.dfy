/** The fields of a work beside its header words, as stratum_gen_work fills them and work_copy copies them. */
module Work {
  import opened Bytes
  import opened Target
  import opened Wrappers

  datatype WorkInfo = WorkInfo(jobId: Option<seq<Byte>>, xnonce2: seq<Byte>, target: Limbs, targetDiff: real,
                               height: nat, epoch: nat)

  /** A work that has been zeroed. */
  const NO_WORK := WorkInfo(None, [], [0, 0, 0, 0], 0.0, 0, 0)

  /** The target is that of the work's own difficulty. */
  predicate OwnTarget(w: WorkInfo) {
    Representable(w.targetDiff) && TargetOf(w.target, w.targetDiff)
  }
}
