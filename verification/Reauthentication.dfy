/** What the order of the reauthentication steps decides: exactly when a queued share can still be sent, and
    exactly when old shares are held back. */
module Reauthentication {
  import opened Protocol

  // ----- what every reachable state satisfies -----

  predicate Sound(s: State) {
    EpochsOrdered(s) && Identified(s) && Conserved(s) && (s.frozen <==> s.workio.Stopped?)
  }

  lemma StepKeepsFrozen(s: State, step: Step)
    requires s.frozen <==> s.workio.Stopped?
    ensures Do(s, step).frozen <==> Do(s, step).workio.Stopped?
    ensures |Do(s, step).miners| == |s.miners|
  {
  }

  lemma {:induction false} RunKeepsSound(s: State, steps: seq<Step>)
    requires Sound(s)
    ensures Sound(Run(s, steps)) && |Run(s, steps).miners| == |s.miners|
  {
    if steps != [] {
      hide Do, EpochsOrdered, Identified, Conserved;
      var s', step := Run(s, steps[..|steps| - 1]), steps[|steps| - 1];
      RunKeepsSound(s, steps[..|steps| - 1]);
      StepKeepsOrder(s', step);
      StepKeepsIds(s', step);
      StepConserves(s', step);
      StepKeepsFrozen(s', step);
    }
  }

  lemma ReachableSound(threads: nat, steps: seq<Step>)
    ensures Sound(Run(Init(threads), steps)) && |Run(Init(threads), steps).miners| == threads
  {
    InitIds(threads);
    RunKeepsSound(Init(threads), steps);
  }

  // ----- the submission thread working through its queue -----

  predicate Current(s: State, c: Cmd) {
    c.work == c.token == s.epoch
  }

  predicate Ends(step: Step) {
    step == Send || step == SendFails
  }

  /** The rest of workio_submit_work, from wherever it stands. */
  function Flush(last: Step): seq<Step> {
    [CheckToken, CheckSuspended, CheckEpoch, last]
  }

  /** How many of the tests are behind the submission thread, with nothing in hand counting as all. */
  function Passed(w: Workio): nat {
    match w
    case Popped(_) => 0
    case TokenPassed(_) => 1
    case NotSuspended(_) => 2
    case _ => 3
  }

  /** Only the command in hand has moved, and it was not dropped if it is current. */
  predicate MovedOn(s: State, s': State, passed: nat) {
    s' == s.(workio := s'.workio, finished := s'.finished)
    && !s'.workio.Stopped? && Passed(s'.workio) >= passed
    && (Busy(s.workio) && Current(s, s.workio.cmd) ==> Busy(s'.workio) && s'.workio.cmd == s.workio.cmd)
  }

  lemma Checked(s: State, step: Step, passed: nat)
    requires !s.suspended && !s.workio.Stopped? && Passed(s.workio) >= passed
    requires step == if passed == 0 then CheckToken else if passed == 1 then CheckSuspended else CheckEpoch
    requires passed <= 2
    ensures MovedOn(s, Do(s, step), passed + 1)
  {
  }

  lemma Finished(s: State, last: Step)
    requires !s.workio.Stopped? && Passed(s.workio) >= 3 && Ends(last)
    ensures var r := Do(s, last); r == s.(workio := Waiting, finished := r.finished, sent := r.sent)
    ensures last == SendFails ==> Do(s, last).sent == s.sent
    ensures last == Send && Busy(s.workio) ==> Do(s, last).sent == s.sent + [s.workio.cmd]
  {
  }

  lemma Flushed(s: State, last: Step)
    requires !s.suspended && !s.workio.Stopped? && Ends(last)
    ensures var r := Run(s, Flush(last)); r == s.(workio := Waiting, finished := r.finished, sent := r.sent)
    ensures last == SendFails ==> Run(s, Flush(last)).sent == s.sent
    ensures last == Send && Busy(s.workio) && Current(s, s.workio.cmd)
            ==> Run(s, Flush(last)).sent == s.sent + [s.workio.cmd]
  {
    hide Run, Do;
    RunFour(s, CheckToken, CheckSuspended, CheckEpoch, last);
    var s1 := Do(s, CheckToken);
    var s2 := Do(s1, CheckSuspended);
    var s3 := Do(s2, CheckEpoch);
    Checked(s, CheckToken, 0);
    Checked(s1, CheckSuspended, 1);
    Checked(s2, CheckEpoch, 2);
    Finished(s3, last);
  }

  /** One queued command from tq_pop to its end. */
  function Take(last: Step): seq<Step> {
    [Pop] + Flush(last)
  }

  lemma Taken(s: State, last: Step)
    requires !s.suspended && s.workio.Waiting? && s.queue != [] && Ends(last)
    ensures var r := Run(s, Take(last)); r == s.(queue := s.queue[1..], finished := r.finished, sent := r.sent)
    ensures last == SendFails ==> Run(s, Take(last)).sent == s.sent
    ensures last == Send && Current(s, s.queue[0]) ==> Run(s, Take(last)).sent == s.sent + [s.queue[0]]
  {
    RunAppend(s, [Pop], Flush(last));
    RunSnoc(s, [], Pop);
    assert [] + [Pop] == [Pop];
    Flushed(Do(s, Pop), last);
  }

  function Drain(k: nat, last: Step): seq<Step> {
    if k == 0 then [] else Take(last) + Drain(k - 1, last)
  }

  predicate AllCurrent(s: State, cmds: seq<Cmd>) {
    forall i :: 0 <= i < |cmds| ==> Current(s, cmds[i])
  }

  lemma {:induction false} Drained(s: State, k: nat, last: Step)
    requires !s.suspended && s.workio.Waiting? && k <= |s.queue| && Ends(last)
    ensures var r := Run(s, Drain(k, last)); r == s.(queue := s.queue[k..], finished := r.finished, sent := r.sent)
    ensures last == SendFails ==> Run(s, Drain(k, last)).sent == s.sent
    ensures last == Send && AllCurrent(s, s.queue[..k]) ==> Run(s, Drain(k, last)).sent == s.sent + s.queue[..k]
    decreases k
  {
    hide Take, Do;
    if k > 0 {
      hide Run;
      Taken(s, last);
      var s' := Run(s, Take(last));
      RunAppend(s, Take(last), Drain(k - 1, last));
      Drained(s', k - 1, last);
      FirstAndRest(s, s', k);
    }
  }

  lemma FirstAndRest(s: State, s': State, k: nat)
    requires 0 < k <= |s.queue| && s'.queue == s.queue[1..] && s'.epoch == s.epoch
    ensures s.queue[..k] == [s.queue[0]] + s'.queue[..k - 1] && s'.queue[k - 1..] == s.queue[k..]
    ensures AllCurrent(s, s.queue[..k]) ==> Current(s, s.queue[0]) && AllCurrent(s', s'.queue[..k - 1])
  {
    if AllCurrent(s, s.queue[..k]) {
      var all, rest := s.queue[..k], s'.queue[..k - 1];
      assert Current(s, all[0]);
      forall i | 0 <= i < |rest| ensures Current(s', rest[i]) {
        assert all[i + 1] == rest[i];
        assert Current(s, all[i + 1]);
      }
    }
  }

  // ----- the fate of one queued share -----

  lemma SentIs(s: State, steps: seq<Step>, more: seq<Cmd>)
    requires Run(s, steps).sent == s.sent + more
    ensures SentBy(s, steps) == more
  {
    hide Run;
  }

  lemma Resumed(s: State)
    ensures Run(s, [Resume]) == s.(suspended := false)
  {
    RunSnoc(s, [], Resume);
    assert [] + [Resume] == [Resume];
  }

  /** Resume, finish what is in hand, and work through the queue up to number k. */
  function Deliver(k: nat): seq<Step> {
    [Resume] + (Flush(SendFails) + (Drain(k, SendFails) + Take(Send)))
  }

  lemma Delivered(s: State, k: nat)
    requires !s.workio.Stopped? && k < |s.queue| && Current(s, s.queue[k])
    ensures SentBy(s, Deliver(k)) == [s.queue[k]]
    ensures var r := Run(s, Deliver(k));
      r == s.(suspended := false, workio := Waiting, queue := s.queue[k + 1..], finished := r.finished, sent := r.sent)
  {
    hide Run, Do, Flush, Take, Drain;
    var tail := Drain(k, SendFails) + Take(Send);
    RunAppend(s, [Resume], Flush(SendFails) + tail);
    Resumed(s);
    var s1 := s.(suspended := false);
    RunAppend(s1, Flush(SendFails), tail);
    Flushed(s1, SendFails);
    var s2 := Run(s1, Flush(SendFails));
    RunAppend(s2, Drain(k, SendFails), Take(Send));
    Drained(s2, k, SendFails);
    Taken(Run(s2, Drain(k, SendFails)), Send);
    SentIs(s, Deliver(k), [s.queue[k]]);
  }

  lemma {:induction false} StaleMember(cmds: seq<Cmd>, c: Cmd, e: nat)
    requires c in cmds && c.work < e
    ensures c in Stale(cmds, e)
  {
    if cmds[|cmds| - 1] != c {
      StaleMember(cmds[..|cmds| - 1], c, e);
    }
  }

  lemma QueuedIsNotInHand(s: State, k: nat)
    requires Sound(s) && k < |s.queue|
    ensures Busy(s.workio) ==> s.workio.cmd.id != s.queue[k].id
  {
    hide EpochsOrdered, Cmds, SentOnes;
    if Busy(s.workio) {
      var n := |Cmds(s.finished)|;
      assert s.accepted[n] == s.workio.cmd && s.accepted[n + 1 + k] == s.queue[k];
    }
  }

  /** In every reachable state whose submission thread still runs, a queued share can still be sent exactly when
      its work is of the current epoch. */
  lemma QueuedShareFate(threads: nat, steps: seq<Step>, k: nat)
    requires k < |Run(Init(threads), steps).queue| && !Run(Init(threads), steps).workio.Stopped?
    ensures var s := Run(Init(threads), steps);
      (exists after :: s.queue[k] in SentBy(s, after)) <==> s.queue[k].work == s.epoch
  {
    hide Run, Do, Deliver;
    var s := Run(Init(threads), steps);
    var c := s.queue[k];
    ReachableSound(threads, steps);
    assert Ordered(c, s.epoch);
    if c.work == s.epoch {
      Delivered(s, k);
      assert c in SentBy(s, Deliver(k));
    } else {
      forall after ensures c !in SentBy(s, after) {
        OldNeverSent(s, k, after);
      }
    }
  }

  lemma OldNeverSent(s: State, k: nat, after: seq<Step>)
    requires Sound(s) && k < |s.queue| && s.queue[k].work < s.epoch
    ensures s.queue[k] !in SentBy(s, after)
  {
    hide Run, Do, Stale, Sound;
    var c := s.queue[k];
    AtMostOneStaleShare(s, after, c.work + 1);
    QueuedIsNotInHand(s, k);
    if c in SentBy(s, after) {
      StaleMember(SentBy(s, after), c, c.work + 1);
    }
  }

  // ----- miners keep feeding the queue -----

  /** The stratum and submission threads run and there is a miner. */
  predicate Mining(s: State) {
    s.miners != [] && !s.frozen && !s.workio.Stopped?
  }

  /** Miners and generation have moved, nothing else. */
  predicate Fed(s: State, s': State) {
    s' == s.(miners := s'.miners, queue := s'.queue, accepted := s'.accepted, shared := s'.shared,
             generating := s'.generating, made := s'.made)
    && |s'.miners| == |s.miners|
  }

  lemma Settled(s: State)
    requires Mining(s)
    ensures var r := Run(s, [LoadToken(0), Push(0)]); Fed(s, r) && r.miners[0].Hashing?
  {
    RunTwo(s, LoadToken(0), Push(0));
    hide Run;
  }

  lemma Regenerated(s: State)
    requires Mining(s)
    ensures var r := Run(s, [GenerateStore, GenerateLoad, GenerateStore]);
      Fed(s, r) && r.miners == s.miners && r.shared == Tag(s.epoch, s.session) && r.generating.None?
  {
    RunThree(s, GenerateStore, GenerateLoad, GenerateStore);
    hide Run;
  }

  lemma TakesWork(s: State)
    requires Mining(s) && s.miners[0].Hashing? && s.generating.None?
    ensures var r := Run(s, [Refresh(0), CopyWork(0)]);
      Fed(s, r) && r.queue == s.queue && r.miners[0] == Copied(s.shared, s.made, s.shared)
  {
    RunTwo(s, Refresh(0), CopyWork(0));
    hide Run;
  }

  lemma HandsIn(s: State)
    requires Mining(s) && s.miners[0].Copied?
    ensures var r := Run(s, [LoadToken(0), Push(0)]);
      Fed(s, r) && r.queue == s.queue + [Cmd(s.miners[0].id, s.miners[0].copy.epoch, s.miners[0].copy.session, s.epoch)]
  {
    hide Run, Do;
    RunTwo(s, LoadToken(0), Push(0));
    var t := Do(s, LoadToken(0));
    TokenLoaded(s);
    Pushed(t);
  }

  lemma TokenLoaded(s: State)
    requires Mining(s) && s.miners[0].Copied?
    ensures var m, r := s.miners[0], Do(s, LoadToken(0));
      r == s.(miners := r.miners) && |r.miners| == |s.miners|
      && r.miners[0] == Tagged(m.tag, Cmd(m.id, m.copy.epoch, m.copy.session, s.epoch))
  {
  }

  lemma Pushed(s: State)
    requires Mining(s) && s.miners[0].Tagged?
    ensures var r := Do(s, Push(0));
      r == s.(miners := r.miners, queue := r.queue, accepted := r.accepted) && |r.miners| == |s.miners|
      && r.queue == s.queue + [s.miners[0].cmd]
  {
  }

  lemma Found(s: State)
    requires Mining(s) && s.miners[0].Hashing? && s.shared == Tag(s.epoch, s.session) && s.generating.None?
    ensures var r := Run(s, [Refresh(0), CopyWork(0)] + [LoadToken(0), Push(0)]);
      Fed(s, r) && r.queue != [] && Current(r, r.queue[|r.queue| - 1])
      && r.queue[|r.queue| - 1].session == s.session
  {
    hide Run, Do;
    RunAppend(s, [Refresh(0), CopyWork(0)], [LoadToken(0), Push(0)]);
    TakesWork(s);
    HandsIn(Run(s, [Refresh(0), CopyWork(0)]));
  }

  /** Miner 0 hands in what it has, takes freshly generated work and finds a share. */
  function Produce(): seq<Step> {
    [LoadToken(0), Push(0)]
    + ([GenerateStore, GenerateLoad, GenerateStore] + ([Refresh(0), CopyWork(0)] + [LoadToken(0), Push(0)]))
  }

  lemma Produced(s: State)
    requires Mining(s)
    ensures var r := Run(s, Produce());
      Fed(s, r) && r.queue != [] && Current(r, r.queue[|r.queue| - 1]) && r.queue[|r.queue| - 1].session == s.session
  {
    hide Run, Do;
    var a, b := [LoadToken(0), Push(0)], [GenerateStore, GenerateLoad, GenerateStore];
    var c := [Refresh(0), CopyWork(0)] + [LoadToken(0), Push(0)];
    RunAppend(s, a, b + c);
    RunAppend(Run(s, a), b, c);
    Settled(s);
    Regenerated(Run(s, a));
    Found(Run(Run(s, a), b));
  }

  /** One more share of the current epoch can be found and sent. */
  lemma OneMore(s: State) returns (steps: seq<Step>)
    requires Mining(s)
    ensures |SentBy(s, steps)| == 1 && SentBy(s, steps)[0].work == s.epoch
    ensures Mining(Run(s, steps)) && Run(s, steps).epoch == s.epoch
  {
    hide Run, Do, Produce, Deliver, Stale;
    Produced(s);
    var s1 := Run(s, Produce());
    var k := |s1.queue| - 1;
    steps := Produce() + Deliver(k);
    SentTwice(s, Produce(), Deliver(k));
    Delivered(s1, k);
    SentIs(s, Produce(), []);
  }

  predicate AllOf(cmds: seq<Cmd>, epoch: nat) {
    forall i :: 0 <= i < |cmds| ==> cmds[i].work == epoch
  }

  /** As long as the epoch is not raised, any number of shares of it can still be sent. */
  lemma {:induction false} AnyNumber(s: State, n: nat) returns (steps: seq<Step>)
    requires Mining(s)
    ensures |SentBy(s, steps)| == n && AllOf(SentBy(s, steps), s.epoch)
    ensures Mining(Run(s, steps)) && Run(s, steps).epoch == s.epoch
  {
    if n == 0 {
      steps := [];
    } else {
      hide Run, Do;
      var before := AnyNumber(s, n - 1);
      var s1 := Run(s, before);
      var last := OneMore(s1);
      steps := before + last;
      SentTwice(s, before, last);
    }
  }

  lemma {:induction false} AllStale(cmds: seq<Cmd>, epoch: nat)
    requires AllOf(cmds, epoch)
    ensures Stale(cmds, epoch + 1) == cmds
  {
    if cmds != [] {
      AllStale(cmds[..|cmds| - 1], epoch);
    }
  }

  // ----- old shares are held back exactly when the epoch rises in time -----

  /** The shares of the epoch of s, or an older one, that are sent from s on. */
  function OldSent(s: State, steps: seq<Step>): seq<Cmd> {
    Stale(SentBy(s, steps), s.epoch + 1)
  }

  lemma OldSentTwice(s: State, a: seq<Step>, b: seq<Step>)
    ensures OldSent(s, a + b) == OldSent(s, a) + Stale(SentBy(Run(s, a), b), s.epoch + 1)
  {
    hide Run, Stale;
    SentTwice(s, a, b);
    StaleConcat(SentBy(s, a), SentBy(Run(s, a), b), s.epoch + 1);
  }

  /** If the epoch has not risen by the end of the suspension, any number of old shares may follow it. */
  lemma NotRaisedNoBound(s: State, during: seq<Step>, n: nat) returns (after: seq<Step>)
    requires Run(s, during).epoch == s.epoch && Mining(Run(s, during))
    ensures |OldSent(s, during + after)| >= n
  {
    hide Run, Do, Stale;
    after := AnyNumber(Run(s, during), n);
    OldSentTwice(s, during, after);
    AllStale(SentBy(Run(s, during), after), s.epoch);
  }

  /** With submissions suspended from s on and miners at work, at most one old share can ever follow exactly when
      the epoch has risen before submissions resume. */
  lemma AtMostOneExactlyWhenRaised(s: State, during: seq<Step>)
    requires s.suspended && NoResume(during)
    requires Run(s, during).epoch == s.epoch ==> Mining(Run(s, during))
    ensures (forall after :: |OldSent(s, during + after)| <= 1) <==> Run(s, during).epoch > s.epoch
  {
    hide Run, Do, Stale, SentBy;
    EpochOnlyRises(s, during);
    if Run(s, during).epoch > s.epoch {
      forall after ensures |OldSent(s, during + after)| <= 1 {
        RaisedWhileSuspended(s, during, after);
      }
    } else {
      var after := NotRaisedNoBound(s, during, 2);
      assert |OldSent(s, during + after)| > 1;
    }
  }

  /** A share of the epoch can still be found, or is queued. */
  predicate CanSend(s: State) {
    !s.workio.Stopped? && (Mining(s) || exists k :: 0 <= k < |s.queue| && s.queue[k].work == s.epoch)
  }

  /** ... and when nothing was past the suspension test, no old share follows exactly when the epoch has risen. */
  lemma NoneExactlyWhenRaised(s: State, during: seq<Step>)
    requires EpochsOrdered(s) && s.suspended && PastSuspension(s) == []
    requires NoResume(during) && (Run(s, during).epoch == s.epoch ==> CanSend(Run(s, during)))
    ensures (forall after :: OldSent(s, during + after) == []) <==> Run(s, during).epoch > s.epoch
  {
    hide Run, Do, Stale, SentBy, EpochsOrdered, PastSuspension;
    EpochOnlyRises(s, during);
    if Run(s, during).epoch > s.epoch {
      forall after ensures OldSent(s, during + after) == [] {
        RaisedWhileSuspended(s, during, after);
      }
    } else {
      var after := SomeOldSent(s, during);
      assert OldSent(s, during + after) != [];
    }
  }

  lemma SomeOldSent(s: State, during: seq<Step>) returns (after: seq<Step>)
    requires EpochsOrdered(s) && CanSend(Run(s, during)) && Run(s, during).epoch == s.epoch
    ensures OldSent(s, during + after) != []
  {
    hide Run, Do, Stale;
    var s1 := Run(s, during);
    if Mining(s1) {
      after := NotRaisedNoBound(s, during, 1);
    } else {
      var k :| 0 <= k < |s1.queue| && s1.queue[k].work == s1.epoch;
      RunKeepsOrdered(s, during);
      assert Ordered(s1.queue[k], s1.epoch);
      after := Deliver(k);
      Delivered(s1, k);
      OldSentTwice(s, during, after);
      AllStale(SentBy(s1, after), s.epoch);
    }
  }

  lemma {:induction false} RunKeepsOrdered(s: State, steps: seq<Step>)
    requires EpochsOrdered(s)
    ensures EpochsOrdered(Run(s, steps))
  {
    if steps != [] {
      hide Do, EpochsOrdered;
      RunKeepsOrdered(s, steps[..|steps| - 1]);
      StepKeepsOrder(Run(s, steps[..|steps| - 1]), steps[|steps| - 1]);
    }
  }

  // ----- the order in the code -----

  /** The code resumes first and raises the epoch after: in between the whole queue of old shares can go out. */
  lemma ResumedBeforeRaised(s: State)
    requires s.workio.Waiting? && AllCurrent(s, s.queue)
    ensures var steps := [Suspend] + ([Resume] + (Drain(|s.queue|, Send) + [RaiseEpoch]));
      SentBy(s, steps) == s.queue && OldSent(s, steps) == s.queue && Run(s, steps).epoch == s.epoch + 1
  {
    hide Run, Do, Drain, Stale, SentBy;
    var n := |s.queue|;
    RunAppend(s, [Suspend], [Resume] + (Drain(n, Send) + [RaiseEpoch]));
    SuspendedAlone(s);
    var s1 := s.(suspended := true);
    RunAppend(s1, [Resume], Drain(n, Send) + [RaiseEpoch]);
    Resumed(s1);
    var s2 := s.(suspended := false);
    RunAppend(s2, Drain(n, Send), [RaiseEpoch]);
    assert s.queue[..n] == s.queue;
    Drained(s2, n, Send);
    RaisedAlone(Run(s2, Drain(n, Send)));
    SentIs(s, [Suspend] + ([Resume] + (Drain(n, Send) + [RaiseEpoch])), s.queue);
    CurrentIsOld(s);
    AllStale(s.queue, s.epoch);
  }

  lemma CurrentIsOld(s: State)
    requires AllCurrent(s, s.queue)
    ensures AllOf(s.queue, s.epoch)
  {
    assert forall i :: 0 <= i < |s.queue| ==> Current(s, s.queue[i]);
  }

  lemma SuspendedAlone(s: State)
    ensures Run(s, [Suspend]) == s.(suspended := true)
  {
    RunSnoc(s, [], Suspend);
    assert [] + [Suspend] == [Suspend];
  }

  lemma RaisedAlone(s: State)
    ensures Run(s, [RaiseEpoch]) == s.(epoch := s.epoch + 1)
  {
    RunSnoc(s, [], RaiseEpoch);
    assert [] + [RaiseEpoch] == [RaiseEpoch];
  }

  /** Two shares that were queued before the suspension, both sent after it. */
  lemma TwoOldSharesSent()
    ensures var share := [CopyWork(0), LoadToken(0), Push(0)];
      var s := Run(Init(1), share + share);
      var steps := [Suspend] + ([Resume] + (Drain(2, Send) + [RaiseEpoch]));
      s.queue == [Cmd(0, 0, 0, 0), Cmd(1, 0, 0, 0)] && SentBy(s, steps) == s.queue
      && |OldSent(s, steps)| == 2 && Run(s, steps).epoch == s.epoch + 1
  {
    hide Run, Do, OldSent, SentBy;
    var share := [CopyWork(0), LoadToken(0), Push(0)];
    RunAppend(Init(1), share, share);
    OneShareQueued(Init(1), []);
    OneShareQueued(Run(Init(1), share), [Cmd(0, 0, 0, 0)]);
    ResumedBeforeRaised(Run(Init(1), share + share));
  }

  lemma OneShareQueued(s: State, before: seq<Cmd>)
    requires s.epoch == 0 && s.workio.Waiting? && s.miners == [Hashing(Tag(0, 0))] && !s.frozen
    requires s.made == |before| && s.queue == before
    ensures var r := Run(s, [CopyWork(0), LoadToken(0), Push(0)]);
      r.epoch == 0 && r.workio.Waiting? && r.miners == [Hashing(Tag(0, 0))] && !r.frozen
      && r.made == |before| + 1 && r.queue == before + [Cmd(|before|, 0, 0, 0)]
  {
    RunThree(s, CopyWork(0), LoadToken(0), Push(0));
    hide Run;
  }
}
