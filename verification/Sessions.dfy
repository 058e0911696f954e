/** Which shares of a new session a late raise of the epoch costs: a share is dropped as stale exactly when the epoch
    was raised after its work was generated, whatever session the work is of. */
module Sessions {
  import opened Protocol
  import opened Reauthentication

  // ----- where a tag comes from -----

  /** Every tag in the state has the property. */
  ghost predicate AllTags(s: State, has: Tag -> bool) {
    has(s.shared) && (s.generating.Some? ==> has(s.generating.value))
    && (forall i :: 0 <= i < |s.miners| ==> MinerTags(s.miners[i], has))
    && (forall i :: 0 <= i < |s.queue| ==> has(TagOf(s.queue[i])))
    && (Busy(s.workio) ==> has(TagOf(s.workio.cmd)))
  }

  function TagOf(c: Cmd): Tag {
    Tag(c.work, c.session)
  }

  ghost predicate MinerTags(m: Miner, has: Tag -> bool) {
    has(m.tag) && (m.Copied? ==> has(m.copy)) && (m.Tagged? ==> has(TagOf(m.cmd)))
  }

  lemma StepKeepsTags(s: State, step: Step, has: Tag -> bool)
    requires AllTags(s, has) && (step == GenerateLoad ==> has(Tag(s.epoch, s.session)))
    ensures AllTags(Do(s, step), has)
  {
    match step
    case Refresh(_) | CopyWork(_) | LoadToken(_) => MinerKeepsTags(s, step, has);
    case Push(i) => PushKeepsTags(s, i, has);
    case _ =>
      hide MinerTags;
  }

  lemma MinerKeepsTags(s: State, step: Step, has: Tag -> bool)
    requires AllTags(s, has) && (step.Refresh? || step.CopyWork? || step.LoadToken?)
    ensures AllTags(Do(s, step), has)
  {
  }

  lemma PushKeepsTags(s: State, i: nat, has: Tag -> bool)
    requires AllTags(s, has)
    ensures AllTags(Do(s, Push(i)), has)
  {
  }

  /** Before step i the run was at this epoch and session, and step i stamped them, or they are the initial ones. */
  ghost predicate StampedAt(threads: nat, steps: seq<Step>, i: nat, t: Tag) {
    i <= |steps| && (i == 0 || (i < |steps| && steps[i] == GenerateLoad))
    && var s := Run(Init(threads), steps[..i]); t == Tag(s.epoch, s.session)
  }

  ghost predicate Stamped(threads: nat, steps: seq<Step>, t: Tag) {
    exists i: nat :: StampedAt(threads, steps, i, t)
  }

  lemma StampedLater(threads: nat, steps: seq<Step>, x: Step, t: Tag)
    requires Stamped(threads, steps, t)
    ensures Stamped(threads, steps + [x], t)
  {
    hide Run, Do;
    var i: nat :| StampedAt(threads, steps, i, t);
    assert (steps + [x])[..i] == steps[..i];
    assert StampedAt(threads, steps + [x], i, t);
  }

  lemma StampedNow(threads: nat, steps: seq<Step>)
    ensures var s := Run(Init(threads), steps); Stamped(threads, steps + [GenerateLoad], Tag(s.epoch, s.session))
  {
    hide Run, Do;
    var s := Run(Init(threads), steps);
    assert (steps + [GenerateLoad])[..|steps|] == steps;
    assert StampedAt(threads, steps + [GenerateLoad], |steps|, Tag(s.epoch, s.session));
  }

  lemma InitStamped(threads: nat)
    ensures AllTags(Init(threads), t => Stamped(threads, [], t))
  {
    var none: seq<Step> := [];
    assert none[..0] == none && Run(Init(threads), none) == Init(threads);
    assert StampedAt(threads, [], 0, Tag(0, 0));
  }

  lemma TagsWeaken(s: State, has: Tag -> bool, also: Tag -> bool)
    requires AllTags(s, has) && forall t :: has(t) ==> also(t)
    ensures AllTags(s, also)
  {
  }

  /** Every tag in a reachable state was stamped by some step of the run. */
  lemma {:induction false} ReachableStamped(threads: nat, steps: seq<Step>)
    ensures AllTags(Run(Init(threads), steps), t => Stamped(threads, steps, t))
  {
    if steps == [] {
      InitStamped(threads);
    } else {
      hide Do, AllTags, Stamped;
      var init, x := steps[..|steps| - 1], steps[|steps| - 1];
      var s := Run(Init(threads), init);
      assert steps == init + [x];
      ReachableStamped(threads, init);
      forall t | Stamped(threads, init, t) ensures Stamped(threads, steps, t) {
        StampedLater(threads, init, x, t);
      }
      TagsWeaken(s, t => Stamped(threads, init, t), t => Stamped(threads, steps, t));
      if x == GenerateLoad {
        StampedNow(threads, init);
      }
      StepKeepsTags(s, x, t => Stamped(threads, steps, t));
    }
  }

  // ----- raised after the generation -----

  predicate NoRaise(steps: seq<Step>) {
    forall i :: 0 <= i < |steps| ==> steps[i] != RaiseEpoch
  }

  lemma StepRaises(s: State, step: Step)
    ensures Do(s, step).epoch == s.epoch + if step == RaiseEpoch then 1 else 0
  {
  }

  lemma {:induction false} RaisedExactly(s: State, steps: seq<Step>)
    ensures Run(s, steps).epoch == s.epoch <==> NoRaise(steps)
  {
    if steps != [] {
      hide Do;
      var init, x := steps[..|steps| - 1], steps[|steps| - 1];
      RaisedExactly(s, init);
      EpochOnlyRises(s, init);
      StepRaises(Run(s, init), x);
      assert NoRaise(steps) <==> NoRaise(init) && x != RaiseEpoch by {
        assert forall i :: 0 <= i < |init| ==> init[i] == steps[i];
      }
    }
  }

  /** In every reachable state whose submission thread still runs, a queued share, of the current session or any
      other, can still be sent exactly when the epoch was not raised after its work was generated. */
  lemma GenerationDecides(threads: nat, steps: seq<Step>, k: nat)
    requires k < |Run(Init(threads), steps).queue| && !Run(Init(threads), steps).workio.Stopped?
    ensures var s := Run(Init(threads), steps); var c := s.queue[k];
      && Stamped(threads, steps, TagOf(c))
      && forall i: nat :: StampedAt(threads, steps, i, TagOf(c)) ==>
           ((exists after :: c in SentBy(s, after)) <==> NoRaise(steps[i..]))
  {
    hide Run, Do, Stamped, NoRaise, SentBy;
    var s := Run(Init(threads), steps);
    var c := s.queue[k];
    ReachableStamped(threads, steps);
    QueuedShareFate(threads, steps, k);
    forall i: nat | StampedAt(threads, steps, i, TagOf(c))
      ensures (exists after :: c in SentBy(s, after)) <==> NoRaise(steps[i..])
    {
      assert steps == steps[..i] + steps[i..];
      RunAppend(Init(threads), steps[..i], steps[i..]);
      RaisedExactly(Run(Init(threads), steps[..i]), steps[i..]);
    }
  }

  // ----- the order in the code -----

  /** The code raises the epoch after the session is there: a share found on work generated in between belongs to
      the current session, and is never sent. */
  lemma FreshShareDropped(s: State)
    requires Sound(s) && Mining(s)
    ensures var r := Run(s, [NewSession] + (Produce() + [RaiseEpoch]));
      && r.session == s.session + 1 && r.queue != []
      && var c := r.queue[|r.queue| - 1]; c.session == r.session && forall after :: c !in SentBy(r, after)
  {
    hide Run, Do, Produce, SentBy, Sound;
    RunAppend(s, [NewSession], Produce() + [RaiseEpoch]);
    SessionAlone(s);
    var s1 := s.(session := s.session + 1);
    RunAppend(s1, Produce(), [RaiseEpoch]);
    Produced(s1);
    var s2 := Run(s1, Produce());
    RaisedAlone(s2);
    var r := s2.(epoch := s2.epoch + 1);
    RunKeepsSound(s, [NewSession] + (Produce() + [RaiseEpoch]));
    forall after ensures r.queue[|r.queue| - 1] !in SentBy(r, after) {
      OldNeverSent(r, |r.queue| - 1, after);
    }
  }

  /** Raised before the generation, the share of the new session can be sent. */
  lemma FreshShareKept(s: State)
    requires Mining(s)
    ensures var r := Run(s, [NewSession] + ([RaiseEpoch] + Produce()));
      && r.session == s.session + 1 && r.queue != []
      && var c := r.queue[|r.queue| - 1]; c.session == r.session && exists after :: c in SentBy(r, after)
  {
    hide Run, Do, Produce, SentBy, Deliver;
    RunAppend(s, [NewSession], [RaiseEpoch] + Produce());
    SessionAlone(s);
    var s1 := s.(session := s.session + 1);
    RunAppend(s1, [RaiseEpoch], Produce());
    RaisedAlone(s1);
    var s2 := s1.(epoch := s1.epoch + 1);
    Produced(s2);
    var r := Run(s2, Produce());
    var k := |r.queue| - 1;
    Delivered(r, k);
    assert r.queue[k] in SentBy(r, Deliver(k));
  }

  lemma SessionAlone(s: State)
    ensures Run(s, [NewSession]) == s.(session := s.session + 1)
  {
    RunSnoc(s, [], NewSession);
    assert [] + [NewSession] == [NewSession];
  }
}
