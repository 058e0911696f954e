/** mining.set_extranonce between notifies and generations: exactly when the pool still rebuilds the header of a
    work that is generated on a coinbase laid out earlier. */
module Subscription {
  import opened Bytes
  import opened Civiclight
  import opened Extranonce
  import opened Header
  import opened Hex
  import opened Stratum
  import opened Wrappers

  // ----- one generation -----

  /** A pool that puts its own extranonce1 y1 and the submitted y into the job's coinbase gets the coinbase that was
      laid out with x1 and x exactly when the two pairs are the same bytes. */
  lemma SameCoinbase(m: Notify, x1: seq<Byte>, x: seq<Byte>, y1: seq<Byte>, y: seq<Byte>)
    requires WellFormed(m)
    ensures Coinbase(m, x1, x) == Coinbase(m, y1, y) <==> x1 + x == y1 + y
  {
    hide Decode, AllHex;
    Middle(Decode(m.coinb1), x1, x, y1, y, Decode(m.coinb2));
  }

  lemma Middle(a: seq<Byte>, x1: seq<Byte>, x: seq<Byte>, y1: seq<Byte>, y: seq<Byte>, b: seq<Byte>)
    ensures a + x1 + x + b == a + y1 + y + b <==> x1 + x == y1 + y
  {
    assert a + x1 + x + b == a + (x1 + x) + b && a + y1 + y + b == a + (y1 + y) + b;
    Cancel(a, x1 + x, y1 + y, b);
  }

  lemma Cancel(a: seq<Byte>, s: seq<Byte>, t: seq<Byte>, b: seq<Byte>)
    ensures a + s + b == a + t + b <==> s == t
  {
    if a + s + b == a + t + b {
      assert |a + s + b| == |a + t + b|;
      assert (a + s + b)[|a|..|a| + |s|] == s && (a + t + b)[|a|..|a| + |t|] == t;
    }
  }

  /** With an extranonce1 as long as the one laid out, that is exactly when the extranonce has not changed. */
  lemma UnchangedExactly(m: Notify, x1: seq<Byte>, x: seq<Byte>, y1: seq<Byte>, size: nat)
    requires WellFormed(m) && |y1| == |x1| && |Decode(m.coinb1)| + |x1| + size <= |Coinbase(m, x1, x)|
    ensures Coinbase(m, x1, x) == Coinbase(m, y1, Window(m, x1, x, size)) <==> y1 == x1 && size == |x|
  {
    hide Decode, AllHex, Coinbase, Window, Next;
    var y := Window(m, x1, x, size);
    SameCoinbase(m, x1, x, y1, y);
    WindowIs(m, x1, x, size);
    if x1 + x == y1 + y {
      assert |x1 + x| == |y1 + y|;
      assert (x1 + x)[..|x1|] == x1 && (y1 + y)[..|x1|] == y1;
    }
  }

  /** The pool rebuilds the hashed header exactly when the Merkle roots above the two coinbases agree. */
  lemma PoolSeesExactly(p: Primitives, m: Notify, x1: seq<Byte>, x: seq<Byte>, y1: seq<Byte>, y: seq<Byte>, n: U32)
    requires Civiclight.Usable(p) && WellFormed(m)
    ensures var d := WorkData(p, m, x1, x);
      PoolSees(p, m, y1, Request(m.jobId, y, d[19 := Bswap32(n)]), HeaderAt(d, false, n)) <==>
      MerkleRoot(p, Coinbase(m, x1, x), DecodeAll(m.merkle)) == MerkleRoot(p, Coinbase(m, y1, y), DecodeAll(m.merkle))
  {
    hide MerkleRoot, Coinbase, DecodeAll, Decode, Encode, AllHex, HeaderAt, Le32, Bswap32, SwapWords, WorkData,
         Civiclight.Usable;
    WorkImage(p, m, x1, x, n);
    DecodeEncode(y);
    NtimeComesBack(p, m, x1, x);
    NonceComesBack(n);
    var v, h := SwapWords(Decode(m.version)), SwapWords(Decode(m.prevhash));
    var t, b := SwapWords(Decode(m.ntime)), SwapWords(Decode(m.nbits));
    SameMiddle(v + h, MerkleRoot(p, Coinbase(m, x1, x), DecodeAll(m.merkle)),
               MerkleRoot(p, Coinbase(m, y1, y), DecodeAll(m.merkle)), t, b, Le32(n));
  }

  lemma SameMiddle(a: seq<Byte>, s: seq<Byte>, t: seq<Byte>, b: seq<Byte>, c: seq<Byte>, d: seq<Byte>)
    ensures a + s + b + c + d == a + t + b + c + d <==> s == t
  {
    assert a + s + b + c + d == a + s + (b + c + d) && a + t + b + c + d == a + t + (b + c + d);
    Cancel(a, s, t, b + c + d);
  }

  /** set_extranonce and then a generation, with no notify in between. The pool that sent the new extranonce gets
      the coinbase behind the published work exactly when nothing has changed. */
  method ChangedBeforeGeneration(ctx: StratumContext, g: GlobalWork, p: Primitives, hex: seq<Byte>, size: int,
                                 epoch: nat, factor: real, ghost m: Notify, ghost x: seq<Byte>)
    requires Civiclight.Usable(p) && ctx.Holds(m, x) && g.data.Length == 48
    requires 2 <= size <= 16 && |hex| / 2 == |ctx.xnonce1| && ctx.xnonce2At + size <= ctx.coinbase.Length
    requires factor > 0.0 && Target.Representable(ctx.diff / factor)
    modifies ctx, g, g.data, ctx.coinbase
    ensures WellFormed(m) && g.data[..] == WorkData(p, m, old(ctx.xnonce1), x)
    ensures Coinbase(m, old(ctx.xnonce1), x) == Coinbase(m, ctx.xnonce1, g.info.xnonce2)
            <==> ctx.xnonce1 == old(ctx.xnonce1) && size == |x|
  {
    hide Decode, AllHex, Coinbase, WorkData, Window, DecodeAll, MerkleRoot, Next, Target.Representable;
    ghost var x1 := ctx.xnonce1;
    var ok := ctx.SetExtranonce(Some(hex), size);
    ctx.GenWork(p, g, epoch, factor, m, x1, x);
    UnchangedExactly(m, x1, x, ctx.xnonce1, size);
  }

  // ----- runs of notifies, changes and generations -----

  /** What the context knows: the extranonce in force, and the job with the extranonce it was laid out with. */
  datatype Layout = Layout(job: Notify, x1: seq<Byte>, x: seq<Byte>)
  datatype Ctx = Ctx(x1: seq<Byte>, size: nat, laid: Option<Layout>)

  /** A notify and what it leaves in the window, an accepted set_extranonce, a generation. */
  datatype Event = Notified(job: Notify, x: seq<Byte>) | Changed(x1: seq<Byte>, size: nat) | Generated

  /** A generation whose window reaches past the extranonce2 of the layout would count up bytes of the second half;
      runs end there. */
  predicate Possible(c: Ctx, e: Event) {
    match e
    case Notified(m, x) => WellFormed(m) && |x| == c.size
    case Changed(x1, size) => 2 <= size <= 16
    case Generated => c.laid.Some? && c.size <= |c.laid.value.x|
  }

  function Apply(c: Ctx, e: Event): Ctx
    requires Possible(c, e)
  {
    match e
    case Notified(m, x) => c.(laid := Some(Layout(m, c.x1, x)))
    case Changed(x1, size) => c.(x1 := x1, size := size)
    case Generated =>
      var l := c.laid.value;
      c.(laid := Some(l.(x := Next(l.x[..c.size]) + l.x[c.size..])))
  }

  /** What the real context and this abstraction of it have in common. */
  ghost predicate Shows(ctx: StratumContext, c: Ctx)
    reads ctx, ctx.coinbase
  {
    ctx.xnonce1 == c.x1 && ctx.xnonce2Size == c.size
    && (c.laid.Some? ==> ctx.LaidOut(c.laid.value.job, c.laid.value.x1, c.laid.value.x))
  }

  /** A well-formed notify is one of the events, the window cleared if the job is new. */
  method NotifyShows(ctx: StratumContext, m: Notify, height: nat, ghost c: Ctx) returns (ghost x: seq<Byte>)
    requires Shows(ctx, c) && WellFormed(m)
    modifies ctx
    ensures Possible(c, Notified(m, x)) && Shows(ctx, Apply(c, Notified(m, x)))
    ensures !(old(ctx.hasJob) && old(ctx.jobId) == m.jobId) ==> x == Zeros(c.size)
  {
    hide Decode, DecodeAll, Coinbase, HexOf, WellFormed;
    ghost var isNew := !(ctx.hasJob && ctx.jobId == m.jobId);
    var ok := ctx.OnNotify(m, height);
    x := if isNew then Zeros(c.size) else ctx.coinbase[ctx.xnonce2At..ctx.xnonce2At + ctx.xnonce2Size];
  }

  /** A set_extranonce with a readable extranonce1 is one, or changes nothing. */
  method ChangeShows(ctx: StratumContext, hex: seq<Byte>, size: int, ghost c: Ctx) returns (ok: bool)
    requires Shows(ctx, c) && HexOf(hex, |hex| / 2)
    modifies ctx`xnonce1, ctx`xnonce2Size
    ensures ok <==> 2 <= size <= 16
    ensures if ok then Possible(c, Changed(Decode(hex), size)) && Shows(ctx, Apply(c, Changed(Decode(hex), size)))
            else Shows(ctx, c)
  {
    hide DecodeAll, Coinbase, WellFormed;
    ok := ctx.SetExtranonce(Some(hex), size);
  }

  /** A generation is one, and publishes the work of the layout it finds. */
  method GenerationShows(ctx: StratumContext, g: GlobalWork, p: Primitives, epoch: nat, factor: real, ghost c: Ctx)
    requires Civiclight.Usable(p) && Shows(ctx, c) && Possible(c, Generated) && g.data.Length == 48
    requires factor > 0.0 && Target.Representable(ctx.diff / factor)
    modifies ctx, g, g.data, ctx.coinbase
    ensures Shows(ctx, Apply(c, Generated))
    ensures var l := c.laid.value;
      WellFormed(l.job) && g.data[..] == WorkData(p, l.job, l.x1, l.x) && g.info.xnonce2 == l.x[..c.size]
  {
    hide Decode, DecodeAll, Coinbase, HexOf, WorkData, Next, Target.Representable, Work.OwnTarget;
    ghost var l := c.laid.value;
    LaidOutReaches(ctx, l, c.size);
    ctx.GenWork(p, g, epoch, factor, l.job, l.x1, l.x);
    WindowIs(l.job, l.x1, l.x, c.size);
  }

  lemma LaidOutReaches(ctx: StratumContext, l: Layout, size: nat)
    requires ctx.LaidOut(l.job, l.x1, l.x) && size <= |l.x|
    ensures ctx.xnonce2At + size <= ctx.coinbase.Length
    ensures WellFormed(l.job) && |Decode(l.job.coinb1)| + |l.x1| + size <= |Coinbase(l.job, l.x1, l.x)|
  {
    hide Decode, DecodeAll, HexOf, WellFormed;
  }

  predicate PossibleRun(c: Ctx, events: seq<Event>)
    decreases |events|, 0
  {
    events == [] || (PossibleRun(c, events[..|events| - 1])
                     && Possible(RunOf(c, events[..|events| - 1]), events[|events| - 1]))
  }

  function RunOf(c: Ctx, events: seq<Event>): Ctx
    requires PossibleRun(c, events)
    decreases |events|, 1
  {
    if events == [] then c else Apply(RunOf(c, events[..|events| - 1]), events[|events| - 1])
  }

  /** The layout is that of the extranonce in force. */
  predicate InStep(c: Ctx) {
    c.laid.Some? && c.laid.value.x1 == c.x1 && |c.laid.value.x| == c.size
  }

  /** The last notify of the events, counted from the end. */
  predicate LastNotify(events: seq<Event>, k: nat) {
    k < |events| && events[k].Notified? && forall i :: k < i < |events| ==> !events[i].Notified?
  }

  lemma {:induction false} PossiblePrefix(c: Ctx, events: seq<Event>, k: nat)
    requires PossibleRun(c, events) && k <= |events|
    ensures PossibleRun(c, events[..k])
    decreases |events|
  {
    if k == |events| {
      assert events[..k] == events;
    } else {
      PossiblePrefix(c, events[..|events| - 1], k);
      assert events[..|events| - 1][..k] == events[..k];
    }
  }

  /** The layout always is that of the extranonce in force at the last notify. */
  lemma {:induction false} LaidOutAtNotify(c: Ctx, events: seq<Event>, k: nat)
    requires PossibleRun(c, events) && LastNotify(events, k)
    ensures PossibleRun(c, events[..k])
    ensures var r, was := RunOf(c, events), RunOf(c, events[..k]);
      r.laid.Some? && r.laid.value.x1 == was.x1 && |r.laid.value.x| == was.size
    decreases |events|
  {
    PossiblePrefix(c, events, k);
    var init := events[..|events| - 1];
    if k == |events| - 1 {
      assert events[..k] == init;
    } else {
      assert init[..k] == events[..k];
      LaidOutAtNotify(c, init, k);
    }
  }

  predicate NoChange(events: seq<Event>) {
    forall i :: 0 <= i < |events| ==> !events[i].Changed?
  }

  lemma {:induction false} UnchangedSince(c: Ctx, events: seq<Event>, k: nat)
    requires PossibleRun(c, events) && k <= |events| && NoChange(events[k..])
    ensures PossibleRun(c, events[..k])
    ensures RunOf(c, events).x1 == RunOf(c, events[..k]).x1 && RunOf(c, events).size == RunOf(c, events[..k]).size
    decreases |events|
  {
    PossiblePrefix(c, events, k);
    if k == |events| {
      assert events[..k] == events;
    } else {
      var init := events[..|events| - 1];
      assert init[k..] == events[k..][..|events| - 1 - k] && init[..k] == events[..k];
      UnchangedSince(c, init, k);
      assert events[|events| - 1] == events[k..][|events| - 1 - k];
    }
  }

  /** Over every run, the layout is in step exactly when the extranonce in force is that of the last notify, and
      always when a notify follows every change. */
  lemma InStepExactly(c: Ctx, events: seq<Event>, k: nat)
    requires PossibleRun(c, events) && LastNotify(events, k)
    ensures PossibleRun(c, events[..k])
    ensures var r, was := RunOf(c, events), RunOf(c, events[..k]);
      InStep(r) <==> r.x1 == was.x1 && r.size == was.size
    ensures NoChange(events[k..]) ==> InStep(RunOf(c, events))
  {
    LaidOutAtNotify(c, events, k);
    if NoChange(events[k..]) {
      UnchangedSince(c, events, k);
    }
  }

  /** The pool, with the extranonce in force and what a generation now publishes, gets the coinbase that is hashed. */
  predicate Rebuilds(c: Ctx)
    requires Possible(c, Generated) && WellFormed(c.laid.value.job)
  {
    var l := c.laid.value;
    Coinbase(l.job, l.x1, l.x) == Coinbase(l.job, c.x1, l.x[..c.size])
  }

  /** For extranonce1 values of one length it does exactly when the layout is in step. */
  lemma RebuildsExactly(c: Ctx)
    requires Possible(c, Generated) && WellFormed(c.laid.value.job) && |c.x1| == |c.laid.value.x1|
    ensures Rebuilds(c) <==> InStep(c)
  {
    hide Decode, AllHex, Next;
    var l := c.laid.value;
    WindowIs(l.job, l.x1, l.x, c.size);
    UnchangedExactly(l.job, l.x1, l.x, c.x1, c.size);
  }
}
