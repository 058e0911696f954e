/** The share submission protocol: miner threads, the workio thread and the stratum thread interleave over
    the shared work, the submit queue, the reauthentication epoch and the suspension flag. Every load, push,
    pop, check and send is a step of its own. */
module Protocol {
  import opened Wrappers

  /** What stratum_gen_work stamps on a work: the epoch it loaded, and the session whose job it used. */
  datatype Tag = Tag(epoch: nat, session: nat)

  /** A submission: which one it is, the epoch and the session of its work, and the epoch read just before it was
      queued. */
  datatype Cmd = Cmd(id: nat, work: nat, session: nat, token: nat)

  /** submit_work, between its steps. */
  datatype Miner =
    | Hashing(tag: Tag)
    | Copied(tag: Tag, id: nat, copy: Tag)
    | Tagged(tag: Tag, cmd: Cmd)

  /** workio_submit_work, between its steps. */
  datatype Workio =
    | Waiting
    | Popped(cmd: Cmd)
    | TokenPassed(cmd: Cmd)
    | NotSuspended(cmd: Cmd)
    | Ready(cmd: Cmd)
    | Stopped

  /** What became of an accepted submission. */
  datatype Outcome = Outcome(cmd: Cmd, wasSent: bool)

  /** epoch is reauth_epoch, session counts the sessions with the pool, shared is the tag in g_work, generating the
      tag of a running stratum_gen_work, which holds the g_work lock. Submissions are numbered by `made` as they
      are copied. */
  datatype State = State(made: nat, epoch: nat, session: nat, suspended: bool, shared: Tag, generating: Option<Tag>,
                         miners: seq<Miner>, queue: seq<Cmd>, frozen: bool, workio: Workio,
                         accepted: seq<Cmd>, finished: seq<Outcome>, sent: seq<Cmd>)

  function Init(threads: nat): State {
    State(0, 0, 0, false, Tag(0, 0), None, seq(threads, _ => Hashing(Tag(0, 0))), [], false, Waiting, [], [], [])
  }

  datatype Step =
    | RaiseEpoch | Suspend | Resume | NewSession
    | GenerateLoad | GenerateStore
    | Refresh(i: nat) | CopyWork(i: nat) | LoadToken(i: nat) | Push(i: nat)
    | Pop | CheckToken | CheckSuspended | CheckEpoch | Send | SendFails | Stop

  predicate Enabled(s: State, step: Step) {
    match step
    case RaiseEpoch => true
    case Suspend => true
    case Resume => true
    case NewSession => true
    case GenerateLoad => s.generating.None?
    case GenerateStore => s.generating.Some?
    case Refresh(i) => i < |s.miners| && s.miners[i].Hashing? && s.generating.None?
    case CopyWork(i) => i < |s.miners| && s.miners[i].Hashing?
    case LoadToken(i) => i < |s.miners| && s.miners[i].Copied?
    case Push(i) => i < |s.miners| && s.miners[i].Tagged?
    case Pop => s.workio.Waiting? && s.queue != []
    case CheckToken => s.workio.Popped?
    case CheckSuspended => s.workio.TokenPassed?
    case CheckEpoch => s.workio.NotSuspended?
    case Send => s.workio.Ready?
    case SendFails => s.workio.Ready?
    case Stop => s.workio.Waiting?
  }

  predicate Busy(w: Workio) {
    !w.Waiting? && !w.Stopped?
  }

  function Finish(s: State, wasSent: bool): State
    requires Busy(s.workio)
  {
    s.(workio := Waiting, finished := s.finished + [Outcome(s.workio.cmd, wasSent)])
  }

  /** One step; a step that is not enabled changes nothing. */
  function Do(s: State, step: Step): State {
    if !Enabled(s, step) then s else
    match step
    case RaiseEpoch => s.(epoch := s.epoch + 1)
    case Suspend => s.(suspended := true)
    case Resume => s.(suspended := false)
    case NewSession => s.(session := s.session + 1)
    case GenerateLoad => s.(generating := Some(Tag(s.epoch, s.session)))
    case GenerateStore => s.(shared := s.generating.value, generating := None)
    case Refresh(i) => s.(miners := s.miners[i := Hashing(s.shared)])
    case CopyWork(i) =>
      s.(miners := s.miners[i := Copied(s.miners[i].tag, s.made, s.miners[i].tag)], made := s.made + 1)
    case LoadToken(i) =>
      var m := s.miners[i];
      s.(miners := s.miners[i := Tagged(m.tag, Cmd(m.id, m.copy.epoch, m.copy.session, s.epoch))])
    case Push(i) =>
      var s' := s.(miners := s.miners[i := Hashing(s.miners[i].tag)]);
      if s.frozen then s'
      else s'.(queue := s.queue + [s.miners[i].cmd], accepted := s.accepted + [s.miners[i].cmd])
    case Pop => s.(queue := s.queue[1..], workio := Popped(s.queue[0]))
    case CheckToken =>
      if s.workio.cmd.token < s.epoch then Finish(s, false) else s.(workio := TokenPassed(s.workio.cmd))
    case CheckSuspended => if s.suspended then Finish(s, false) else s.(workio := NotSuspended(s.workio.cmd))
    case CheckEpoch => if s.workio.cmd.work < s.epoch then Finish(s, false) else s.(workio := Ready(s.workio.cmd))
    case Send => Finish(s, true).(sent := s.sent + [s.workio.cmd])
    case SendFails => Finish(s, false)
    case Stop => s.(workio := Stopped, frozen := true)
  }

  /** Every interleaving is a sequence of steps. */
  function Run(s: State, steps: seq<Step>): State {
    if steps == [] then s else Do(Run(s, steps[..|steps| - 1]), steps[|steps| - 1])
  }

  // ----- epochs never run ahead of their source -----

  predicate Ordered(c: Cmd, epoch: nat) {
    c.work <= c.token <= epoch
  }

  predicate MinerOrdered(m: Miner, epoch: nat) {
    m.tag.epoch <= epoch && (m.Copied? ==> m.copy.epoch <= epoch) && (m.Tagged? ==> Ordered(m.cmd, epoch))
  }

  predicate InHandOrdered(w: Workio, epoch: nat) {
    w.Waiting? || w.Stopped? || Ordered(w.cmd, epoch)
  }

  predicate EpochsOrdered(s: State) {
    s.shared.epoch <= s.epoch
    && (s.generating.Some? ==> s.generating.value.epoch <= s.epoch)
    && (forall i :: 0 <= i < |s.miners| ==> MinerOrdered(s.miners[i], s.epoch))
    && (forall i :: 0 <= i < |s.queue| ==> Ordered(s.queue[i], s.epoch))
    && InHandOrdered(s.workio, s.epoch)
  }

  lemma StepKeepsOrder(s: State, step: Step)
    requires EpochsOrdered(s)
    ensures EpochsOrdered(Do(s, step))
  {
  }

  /** In every reachable state every queued command satisfies work epoch <= token <= global epoch. */
  lemma {:induction false} ReachableOrdered(threads: nat, steps: seq<Step>)
    ensures EpochsOrdered(Run(Init(threads), steps))
  {
    if steps != [] {
      ReachableOrdered(threads, steps[..|steps| - 1]);
      StepKeepsOrder(Run(Init(threads), steps[..|steps| - 1]), steps[|steps| - 1]);
    }
  }

  /** A share passes the epoch check exactly when its work's epoch is the global epoch at that moment. */
  lemma PassingIsCurrent(threads: nat, steps: seq<Step>)
    ensures var s := Run(Init(threads), steps);
      s.workio.NotSuspended? ==>
        (Do(s, CheckEpoch).workio == Ready(s.workio.cmd) <==> s.workio.cmd.work == s.epoch)
  {
    ReachableOrdered(threads, steps);
  }

  lemma StepGrows(s: State, step: Step)
    ensures Do(s, step).epoch >= s.epoch
    ensures |s.sent| <= |Do(s, step).sent| && Do(s, step).sent[..|s.sent|] == s.sent
  {
  }

  lemma {:induction false} EpochOnlyRises(s: State, steps: seq<Step>)
    ensures Run(s, steps).epoch >= s.epoch
  {
    if steps != [] {
      hide Do;
      EpochOnlyRises(s, steps[..|steps| - 1]);
      StepGrows(Run(s, steps[..|steps| - 1]), steps[|steps| - 1]);
    }
  }

  /** The token check drops exactly the shares queued before the epoch last rose, and what it drops, the work-epoch
      check would drop as well, then and at any later time. */
  lemma TokenCheckIsImplied(threads: nat, steps: seq<Step>, later: seq<Step>)
    ensures var s := Run(Init(threads), steps);
      s.workio.Popped? ==>
        && (s.workio.cmd.token < s.epoch <==>
            Do(s, CheckToken) == s.(workio := Waiting, finished := s.finished + [Outcome(s.workio.cmd, false)]))
        && (s.workio.cmd.token < s.epoch ==> s.workio.cmd.work < Run(s, later).epoch)
  {
    ReachableOrdered(threads, steps);
    EpochOnlyRises(Run(Init(threads), steps), later);
  }

  // ----- at most one stale share -----

  function Stale(cmds: seq<Cmd>, e: nat): (r: seq<Cmd>)
    ensures |r| <= |cmds|
  {
    if cmds == [] then []
    else Stale(cmds[..|cmds| - 1], e) + if cmds[|cmds| - 1].work < e then [cmds[|cmds| - 1]] else []
  }

  lemma StaleAppend(cmds: seq<Cmd>, c: Cmd, e: nat)
    ensures Stale(cmds + [c], e) == Stale(cmds, e) + if c.work < e then [c] else []
  {
    assert (cmds + [c])[..|cmds|] == cmds;
  }

  /** What was sent between two states of a run. */
  function Sent(s: State, s': State): seq<Cmd>
    requires |s.sent| <= |s'.sent|
  {
    s'.sent[|s.sent|..]
  }

  lemma {:induction false} SentGrows(s: State, steps: seq<Step>)
    ensures |s.sent| <= |Run(s, steps).sent| && Run(s, steps).sent[..|s.sent|] == s.sent
  {
    if steps != [] {
      hide Do;
      SentGrows(s, steps[..|steps| - 1]);
      StepGrows(Run(s, steps[..|steps| - 1]), steps[|steps| - 1]);
    }
  }

  /** What a run sends from a state on. */
  function SentBy(s: State, steps: seq<Step>): seq<Cmd> {
    SentGrows(s, steps);
    Sent(s, Run(s, steps))
  }

  /** The share that is past its epoch check although its work's epoch is below e. */
  function StaleInHand(s: State, e: nat): seq<Cmd> {
    if s.workio.Ready? && s.workio.cmd.work < e then [s.workio.cmd] else []
  }

  lemma StaleStep(s0: State, s: State, step: Step, e: nat)
    requires |s0.sent| <= |s.sent| && e <= s.epoch
    ensures |s.sent| <= |Do(s, step).sent|
    ensures
      var a, b := Stale(Sent(s0, s), e) + StaleInHand(s, e),
                  Stale(Sent(s0, Do(s, step)), e) + StaleInHand(Do(s, step), e);
      b == a || b == Stale(Sent(s0, s), e)
  {
    hide Stale;
    if step == Send && s.workio.Ready? {
      StaleAppend(Sent(s0, s), s.workio.cmd, e);
      assert Sent(s0, Do(s, step)) == Sent(s0, s) + [s.workio.cmd];
    } else {
      assert Sent(s0, Do(s, step)) == Sent(s0, s);
    }
  }

  lemma {:induction false} StaleRun(s: State, steps: seq<Step>, e: nat)
    requires e <= s.epoch
    ensures var r := Stale(SentBy(s, steps), e) + StaleInHand(Run(s, steps), e);
      r == StaleInHand(s, e) || r == []
  {
    if steps != [] {
      var init := steps[..|steps| - 1];
      StaleRun(s, init, e);
      SentGrows(s, init);
      EpochOnlyRises(s, init);
      StaleStep(s, Run(s, init), steps[|steps| - 1], e);
    }
  }

  /** Once the epoch has reached e, at most one share of an older epoch is ever sent: the one already past
      its check. From any state, over every continuation. */
  lemma AtMostOneStaleShare(s: State, steps: seq<Step>, e: nat)
    requires e <= s.epoch
    ensures Stale(SentBy(s, steps), e) == [] || Stale(SentBy(s, steps), e) == StaleInHand(s, e)
    ensures |Stale(SentBy(s, steps), e)| <= 1
  {
    StaleRun(s, steps, e);
  }

  // ----- suspension -----

  predicate NoResume(steps: seq<Step>) {
    forall i :: 0 <= i < |steps| ==> steps[i] != Resume
  }

  /** The share that is past the suspension test. */
  function PastSuspension(s: State): seq<Cmd> {
    if s.workio.NotSuspended? || s.workio.Ready? then [s.workio.cmd] else []
  }

  lemma SuspendedStep(s0: State, s: State, step: Step)
    requires |s0.sent| <= |s.sent| && s.suspended && step != Resume
    ensures Do(s, step).suspended && |s.sent| <= |Do(s, step).sent|
    ensures var a, b := Sent(s0, s) + PastSuspension(s), Sent(s0, Do(s, step)) + PastSuspension(Do(s, step));
      b == a || b == Sent(s0, s)
  {
    if step == Send && s.workio.Ready? {
      assert Sent(s0, Do(s, step)) == Sent(s0, s) + [s.workio.cmd];
    } else {
      assert Sent(s0, Do(s, step)) == Sent(s0, s);
    }
  }

  lemma {:induction false} SuspendedRun(s: State, steps: seq<Step>)
    requires s.suspended && NoResume(steps)
    ensures Run(s, steps).suspended
    ensures var r := SentBy(s, steps) + PastSuspension(Run(s, steps));
      r == PastSuspension(s) || r == []
  {
    if steps != [] {
      var init := steps[..|steps| - 1];
      SuspendedRun(s, init);
      SentGrows(s, init);
      SuspendedStep(s, Run(s, init), steps[|steps| - 1]);
    }
  }

  /** While submissions stay suspended at most one share is sent, fresh or stale: the one already past the test. */
  lemma AtMostOneWhileSuspended(s: State, steps: seq<Step>)
    requires s.suspended && NoResume(steps)
    ensures SentBy(s, steps) == [] || SentBy(s, steps) == PastSuspension(s)
    ensures |SentBy(s, steps)| <= 1
  {
    SuspendedRun(s, steps);
  }

  // ----- reauthentication -----

  lemma {:induction false} RunAppend(s: State, a: seq<Step>, b: seq<Step>)
    ensures Run(s, a + b) == Run(Run(s, a), b)
  {
    if b == [] {
      assert a + b == a;
    } else {
      RunAppend(s, a, b[..|b| - 1]);
      assert (a + b)[..|a + b| - 1] == a + b[..|b| - 1];
    }
  }

  lemma {:induction false} StaleConcat(a: seq<Cmd>, b: seq<Cmd>, e: nat)
    ensures Stale(a + b, e) == Stale(a, e) + Stale(b, e)
  {
    if b == [] {
      assert a + b == a;
    } else {
      StaleConcat(a, b[..|b| - 1], e);
      assert (a + b)[..|a + b| - 1] == a + b[..|b| - 1];
    }
  }

  /** If the epoch rises while submissions are suspended, then of all the work there was at the suspension
      at most one share is ever sent again, however the run goes on and whenever submissions resume. */
  lemma RaisedWhileSuspended(s: State, during: seq<Step>, after: seq<Step>)
    requires s.suspended && NoResume(during) && Run(s, during).epoch > s.epoch
    ensures var stale := Stale(SentBy(s, during + after), s.epoch + 1);
      stale == [] || stale == PastSuspension(s)
  {
    hide *;
    var e := s.epoch + 1;
    var s1 := Run(s, during);
    SuspendedRun(s, during);
    StaleRun(s1, after, e);
    SentTwice(s, during, after);
    StaleConcat(SentBy(s, during), SentBy(s1, after), e);
    InHandIsPast(s, e);
    InHandIsPast(s1, e);
    OneOverBothParts(PastSuspension(s), SentBy(s, during), PastSuspension(s1),
                     StaleInHand(s1, e), Stale(SentBy(s1, after), e), StaleInHand(Run(s1, after), e), e);
  }

  lemma InHandIsPast(s: State, e: nat)
    ensures StaleInHand(s, e) == [] || StaleInHand(s, e) == PastSuspension(s)
    ensures |PastSuspension(s)| <= 1
  {
  }

  /** x was sent first and q was then past the test; y was sent after that and z is still in hand. */
  lemma OneOverBothParts(p: seq<Cmd>, x: seq<Cmd>, q: seq<Cmd>, h: seq<Cmd>, y: seq<Cmd>, z: seq<Cmd>, e: nat)
    requires |p| <= 1 && (x + q == p || x + q == [])
    requires (h == [] || h == q) && (y + z == h || y + z == [])
    ensures Stale(x, e) + y == [] || Stale(x, e) + y == p
  {
    hide Stale;
    assert |x + q| == |x| + |q| && |y + z| == |y| + |z|;
    StaleOfAtMostOne(x, e);
    if x != [] {
      assert q == [] && x == p && y == [];
      assert Stale(x, e) + y == Stale(x, e);
    } else {
      assert q == [] || q == p;
      assert Stale(x, e) + y == y;
      if y != [] {
        assert z == [] && y == h;
      }
    }
  }

  lemma SentTwice(s: State, a: seq<Step>, b: seq<Step>)
    ensures Run(s, a + b) == Run(Run(s, a), b)
    ensures SentBy(s, a + b) == SentBy(s, a) + SentBy(Run(s, a), b)
  {
    hide Run, Do;
    RunAppend(s, a, b);
    SentGrows(s, a);
    SentGrows(Run(s, a), b);
  }

  lemma StaleOfAtMostOne(a: seq<Cmd>, e: nat)
    requires |a| <= 1
    ensures Stale(a, e) == [] || Stale(a, e) == a
  {
    if a != [] {
      assert a == [] + [a[0]];
      StaleAppend([], a[0], e);
    }
  }

  lemma RunSnoc(s: State, steps: seq<Step>, x: Step)
    ensures Run(s, steps + [x]) == Do(Run(s, steps), x)
  {
    hide Do;
    assert (steps + [x])[..|steps|] == steps;
  }

  lemma RunTwo(s: State, a: Step, b: Step)
    ensures Run(s, [a, b]) == Do(Do(s, a), b)
  {
    hide Do;
    RunSnoc(s, [], a);
    RunSnoc(s, [a], b);
    assert [] + [a] == [a] && [a] + [b] == [a, b];
  }

  lemma RunThree(s: State, a: Step, b: Step, c: Step)
    ensures Run(s, [a, b, c]) == Do(Do(Do(s, a), b), c)
  {
    hide Do;
    RunTwo(s, a, b);
    RunSnoc(s, [a, b], c);
    assert [a, b] + [c] == [a, b, c];
  }

  lemma RunFour(s: State, a: Step, b: Step, c: Step, d: Step)
    ensures Run(s, [a, b, c, d]) == Do(Do(Do(Do(s, a), b), c), d)
  {
    hide Do;
    RunThree(s, a, b, c);
    RunSnoc(s, [a, b, c], d);
    assert [a, b, c] + [d] == [a, b, c, d];
  }

  /** A share that nothing interferes with: it is sent exactly when its work is of the current epoch and submissions
      are not suspended, and it is finished either way. */
  lemma HandledAlone(threads: nat, steps: seq<Step>)
    ensures var s := Run(Init(threads), steps);
      s.workio.Popped? ==>
        var c, s' := s.workio.cmd, Run(s, [CheckToken, CheckSuspended, CheckEpoch, Send]);
        var passes := c.work == s.epoch && !s.suspended;
        && s'.workio == Waiting && s'.queue == s.queue && s'.accepted == s.accepted
        && s'.finished == s.finished + [Outcome(c, passes)]
        && s'.sent == s.sent + if passes then [c] else []
  {
    var s := Run(Init(threads), steps);
    ReachableOrdered(threads, steps);
    if s.workio.Popped? {
      AloneFrom(s);
    }
  }

  lemma AloneFrom(s: State)
    requires s.workio.Popped? && Ordered(s.workio.cmd, s.epoch)
    ensures var c, s' := s.workio.cmd, Run(s, [CheckToken, CheckSuspended, CheckEpoch, Send]);
      var passes := c.work == s.epoch && !s.suspended;
      && s'.workio == Waiting && s'.queue == s.queue && s'.accepted == s.accepted
      && s'.finished == s.finished + [Outcome(c, passes)]
      && s'.sent == s.sent + if passes then [c] else []
  {
    hide Run, Do;
    RunFour(s, CheckToken, CheckSuspended, CheckEpoch, Send);
    var s1 := Do(s, CheckToken);
    var s2 := Do(s1, CheckSuspended);
    var s3 := Do(s2, CheckEpoch);
    WorkioSteps(s);
    WorkioSteps(s1);
    WorkioSteps(s2);
    WorkioSteps(s3);
  }

  /** The steps of the workio thread on a share, and none without one. */
  lemma WorkioSteps(s: State)
    ensures s.workio.Popped? ==>
      Do(s, CheckToken) ==
      if s.workio.cmd.token < s.epoch then Finish(s, false) else s.(workio := TokenPassed(s.workio.cmd))
    ensures s.workio.TokenPassed? ==>
      Do(s, CheckSuspended) == if s.suspended then Finish(s, false) else s.(workio := NotSuspended(s.workio.cmd))
    ensures s.workio.NotSuspended? ==>
      Do(s, CheckEpoch) ==
      if s.workio.cmd.work < s.epoch then Finish(s, false) else s.(workio := Ready(s.workio.cmd))
    ensures s.workio.Ready? ==> Do(s, Send) == Finish(s, true).(sent := s.sent + [s.workio.cmd])
    ensures s.workio.Waiting? ==> Do(s, CheckSuspended) == Do(s, CheckEpoch) == Do(s, Send) == s
  {
  }

  /** A miner that nothing interferes with submits the work it hashed: the share carries the epoch and session of
      that work, the epoch of the moment it is queued, and a number of its own. */
  lemma SubmittedAlone(s: State, i: nat)
    requires i < |s.miners| && s.miners[i].Hashing?
    ensures var t, s' := s.miners[i].tag, Run(s, [CopyWork(i), LoadToken(i), Push(i)]);
      var added := if s.frozen then [] else [Cmd(s.made, t.epoch, t.session, s.epoch)];
      && s'.accepted == s.accepted + added && s'.queue == s.queue + added
      && s'.miners == s.miners && s'.made == s.made + 1
  {
    hide Run;
    RunThree(s, CopyWork(i), LoadToken(i), Push(i));
    assert s.miners[i := Hashing(s.miners[i].tag)] == s.miners;
  }

  /** A generation that nothing interferes with publishes work of the current epoch and session, and a miner that
      refreshes next hashes that. */
  lemma GeneratedAlone(s: State, i: nat)
    requires i < |s.miners| && s.miners[i].Hashing? && s.generating.None?
    ensures var s' := Run(s, [GenerateLoad, GenerateStore, Refresh(i)]);
      && s'.shared == Tag(s.epoch, s.session) && s'.generating.None?
      && s'.miners == s.miners[i := Hashing(Tag(s.epoch, s.session))]
  {
    hide Run;
    RunThree(s, GenerateLoad, GenerateStore, Refresh(i));
  }

  /** Every share numbered from `made` on has a token of epoch e at least. */
  predicate FreshTokens(s: State, made: nat, e: nat) {
    e <= s.epoch && made <= s.made
    && (forall k :: 0 <= k < |s.accepted| && s.accepted[k].id >= made ==> s.accepted[k].token >= e)
    && (forall i :: 0 <= i < |s.miners| && s.miners[i].Tagged? && s.miners[i].cmd.id >= made ==>
      s.miners[i].cmd.token >= e)
  }

  lemma StepKeepsFresh(s: State, step: Step, made: nat, e: nat)
    requires FreshTokens(s, made, e)
    ensures FreshTokens(Do(s, step), made, e)
  {
  }

  lemma {:induction false} RunKeepsFresh(s: State, steps: seq<Step>)
    requires Numbered(s)
    ensures FreshTokens(Run(s, steps), s.made, s.epoch)
  {
    if steps != [] {
      hide Do;
      RunKeepsFresh(s, steps[..|steps| - 1]);
      StepKeepsFresh(Run(s, steps[..|steps| - 1]), steps[|steps| - 1], s.made, s.epoch);
    }
  }

  /** Over every run: the token check never drops a share for an epoch reached before it was copied. Whatever is
      copied after a moment of the run carries a token of the epoch of that moment, or a later one. */
  lemma TokensAreFresh(threads: nat, before: seq<Step>, after: seq<Step>, k: nat)
    ensures var s, s' := Run(Init(threads), before), Run(Run(Init(threads), before), after);
      k < |s'.accepted| && s'.accepted[k].id >= s.made ==> s'.accepted[k].token >= s.epoch
  {
    hide Run, Do;
    ReachableIds(threads, before);
    RunKeepsFresh(Run(Init(threads), before), after);
  }

  /** Once the workio thread has stopped, nothing is accepted, finished or sent any more. */
  lemma {:induction false} NothingAfterStop(s: State, steps: seq<Step>)
    requires s.workio.Waiting?
    ensures var s' := Run(Do(s, Stop), steps);
      && s'.frozen && s'.workio == Stopped && s'.accepted == s.accepted && s'.queue == s.queue
      && s'.finished == s.finished && s'.sent == s.sent
  {
    if steps != [] {
      NothingAfterStop(s, steps[..|steps| - 1]);
    }
  }

  // ----- conservation -----

  function InHand(w: Workio): seq<Cmd> {
    if Busy(w) then [w.cmd] else []
  }

  function Cmds(o: seq<Outcome>): seq<Cmd> {
    if o == [] then [] else Cmds(o[..|o| - 1]) + [o[|o| - 1].cmd]
  }

  function SentOnes(o: seq<Outcome>): seq<Cmd> {
    if o == [] then [] else SentOnes(o[..|o| - 1]) + if o[|o| - 1].wasSent then [o[|o| - 1].cmd] else []
  }

  lemma OutcomeAppend(o: seq<Outcome>, x: Outcome)
    ensures Cmds(o + [x]) == Cmds(o) + [x.cmd]
    ensures SentOnes(o + [x]) == SentOnes(o) + if x.wasSent then [x.cmd] else []
  {
    assert (o + [x])[..|o|] == o;
  }

  predicate Conserved(s: State) {
    s.accepted == Cmds(s.finished) + InHand(s.workio) + s.queue && s.sent == SentOnes(s.finished)
  }

  lemma PushConserves(s: State, i: nat)
    requires Conserved(s)
    ensures Conserved(Do(s, Push(i)))
  {
    hide Cmds, SentOnes;
    if Enabled(s, Push(i)) {
      Regroup(Cmds(s.finished) + InHand(s.workio), s.queue, [s.miners[i].cmd]);
    }
  }

  lemma Regroup(a: seq<Cmd>, b: seq<Cmd>, c: seq<Cmd>)
    ensures a + b + c == a + (b + c)
  {
  }

  lemma FinishConserves(s: State, step: Step, wasSent: bool)
    requires Conserved(s) && wasSent == step.Send?
    requires step.CheckToken? || step.CheckSuspended? || step.CheckEpoch? || step.Send? || step.SendFails?
    ensures Conserved(Do(s, step))
  {
    hide Cmds, SentOnes;
    if Busy(s.workio) {
      OutcomeAppend(s.finished, Outcome(s.workio.cmd, wasSent));
      assert Cmds(s.finished) + [s.workio.cmd] + [] == Cmds(s.finished) + [s.workio.cmd];
      assert SentOnes(s.finished) + [] == SentOnes(s.finished);
    }
  }

  lemma StepConserves(s: State, step: Step)
    requires Conserved(s)
    ensures Conserved(Do(s, step))
  {
    hide Cmds, SentOnes;
    match step
    case Pop =>
      if s.queue != [] {
        assert s.queue == [s.queue[0]] + s.queue[1..];
      }
    case Push(i) => PushConserves(s, i);
    case CheckToken | CheckSuspended | CheckEpoch | SendFails => FinishConserves(s, step, false);
    case Send => FinishConserves(s, step, true);
    case _ =>
  }

  /** Every accepted submission is finished, in hand or queued, once each and in the order of acceptance, and
      what was sent is exactly the finished ones so marked: no share is lost in the protocol or sent twice. */
  lemma {:induction false} NothingLostOrDuplicated(threads: nat, steps: seq<Step>)
    ensures Conserved(Run(Init(threads), steps))
  {
    if steps != [] {
      NothingLostOrDuplicated(threads, steps[..|steps| - 1]);
      StepConserves(Run(Init(threads), steps[..|steps| - 1]), steps[|steps| - 1]);
    }
  }

  // ----- every submission has its own number -----

  function MinerId(m: Miner): Option<nat> {
    if m.Copied? then Some(m.id) else if m.Tagged? then Some(m.cmd.id) else None
  }

  predicate Numbered(s: State) {
    (forall k :: 0 <= k < |s.accepted| ==> s.accepted[k].id < s.made)
    && (forall i :: 0 <= i < |s.miners| && MinerId(s.miners[i]).Some? ==> MinerId(s.miners[i]).value < s.made)
  }

  predicate IdsApart(cmds: seq<Cmd>) {
    forall k, l :: 0 <= k < l < |cmds| ==> cmds[k].id != cmds[l].id
  }

  predicate MinersApart(s: State) {
    (forall i, j :: 0 <= i < j < |s.miners| && MinerId(s.miners[i]).Some? ==>
      MinerId(s.miners[i]) != MinerId(s.miners[j]))
    && (forall i, k :: 0 <= i < |s.miners| && 0 <= k < |s.accepted| ==>
      MinerId(s.miners[i]) != Some(s.accepted[k].id))
  }

  predicate Identified(s: State) {
    Numbered(s) && IdsApart(s.accepted) && MinersApart(s)
  }

  lemma CopyKeepsIds(s: State, i: nat)
    requires Identified(s)
    ensures Identified(Do(s, CopyWork(i)))
  {
  }

  lemma TokenKeepsIds(s: State, i: nat)
    requires Identified(s)
    ensures Identified(Do(s, LoadToken(i)))
  {
    var s' := Do(s, LoadToken(i));
    assert forall j :: 0 <= j < |s.miners| ==> MinerId(s'.miners[j]) == MinerId(s.miners[j]);
  }

  lemma PushKeepsIds(s: State, i: nat)
    requires Identified(s)
    ensures Identified(Do(s, Push(i)))
  {
  }

  lemma RefreshKeepsIds(s: State, i: nat)
    requires Identified(s)
    ensures Identified(Do(s, Refresh(i)))
  {
  }

  lemma StepKeepsIds(s: State, step: Step)
    requires Identified(s)
    ensures Identified(Do(s, step))
  {
    match step
    case CopyWork(i) => CopyKeepsIds(s, i);
    case LoadToken(i) => TokenKeepsIds(s, i);
    case Push(i) => PushKeepsIds(s, i);
    case Refresh(i) => RefreshKeepsIds(s, i);
    case _ =>
      assert Do(s, step).made == s.made && Do(s, step).miners == s.miners && Do(s, step).accepted == s.accepted;
  }

  lemma {:induction false} ReachableIds(threads: nat, steps: seq<Step>)
    ensures Identified(Run(Init(threads), steps))
  {
    hide Do, Identified;
    if steps == [] {
      InitIds(threads);
    } else {
      ReachableIds(threads, steps[..|steps| - 1]);
      StepKeepsIds(Run(Init(threads), steps[..|steps| - 1]), steps[|steps| - 1]);
    }
  }

  lemma InitIds(threads: nat)
    ensures Identified(Init(threads))
  {
    var s := Init(threads);
    assert forall i :: 0 <= i < |s.miners| ==> s.miners[i] == Hashing(Tag(0, 0));
    assert s.accepted == [] && s.miners == seq(threads, _ => Hashing(Tag(0, 0)));
  }

  lemma {:induction false} SentAreFinished(o: seq<Outcome>)
    requires IdsApart(Cmds(o))
    ensures IdsApart(SentOnes(o)) && forall c :: c in SentOnes(o) ==> c in Cmds(o)
  {
    if o != [] {
      var init := o[..|o| - 1];
      var before, x := Cmds(init), o[|o| - 1];
      assert Cmds(o)[..|before|] == before;
      assert forall k, l :: 0 <= k < l < |before| ==> Cmds(o)[k] == before[k] && Cmds(o)[l] == before[l];
      SentAreFinished(init);
      forall c | c in SentOnes(init) ensures c.id != x.cmd.id {
        var k :| 0 <= k < |before| && before[k] == c;
        assert Cmds(o)[k] == c && Cmds(o)[|before|] == x.cmd;
      }
    }
  }

  /** No submission is sent twice, over every run. */
  lemma NoShareSentTwice(threads: nat, steps: seq<Step>)
    ensures IdsApart(Run(Init(threads), steps).sent)
  {
    hide Run, Cmds, SentOnes;
    var s := Run(Init(threads), steps);
    ReachableIds(threads, steps);
    NothingLostOrDuplicated(threads, steps);
    assert s.accepted[..|Cmds(s.finished)|] == Cmds(s.finished);
    SentAreFinished(s.finished);
  }
}
