/** Runs of the 32-bit ring.

    A run of the 32-bit ring follows a run of the unbounded ring, action by
    action, as long as every compared snapshot is fresh: WrappedRunRefines
    builds the unbounded run.  What module BufRingSafety and module BufRingLinear
    prove of that run is then read back in words. */
module BufRing32Runs {
  import opened Modular
  import opened BufRing
  import opened BufRingSafety
  import opened BufRingLinear
  import opened BufRing32

  /** The wrapped ring reads nothing but words: a caller knows there is an
      element to put back because the masked head and tail differ. */
  predicate Enabled32(c: Ring32, a: Action) {
    && c.mem.Size() > 0
    && a.t in c.pcs
    && match a
       case Pause(_) => true
       case Run(t) => !c.pcs[t].Outside?
       case Invoke(t, call) =>
         && c.pcs[t].Outside?
         && match call
            case Enqueue(_) => true
            case DequeueMc => c.consumers == Many
            case PutbackSc(_) =>
              c.consumers == One(t) && c.mem.Index(c.mem.consHead) != c.mem.Index(c.mem.prodTail)
            case _ => c.consumers == One(t)
  }

  function Exec32(c: Ring32, a: Action): Ring32
    requires Enabled32(c, a)
  {
    match a
    case Pause(_) => c
    case Invoke(t, call) => c.(pcs := c.pcs[t := Entry(call)])
    case Run(t) =>
      var o := Access32(c.mem, c.pcs[t]);
      c.(mem := o.mem, pcs := c.pcs[t := o.pc])
  }

  /** The ring buf_ring_alloc returns, before any call. */
  ghost predicate Init32(c: Ring32) {
    && PowerOfTwo(c.mem.Size()) && c.mem == Mem32(0, 0, 0, 0, c.mem.slots)
    && (forall t <- c.pcs :: c.pcs[t] == Outside(NoReply))
  }

  ghost predicate IsRun32(run: seq<Ring32>, acts: seq<Action>) {
    && |run| == |acts| + 1 && Init32(run[0])
    && forall i :: 0 <= i < |acts| ==> StepAt32(run, acts, i)
  }

  ghost predicate StepAt32(run: seq<Ring32>, acts: seq<Action>, i: nat)
    requires i < |acts| < |run|
  {
    Enabled32(run[i], acts[i]) && run[i + 1] == Exec32(run[i], acts[i])
  }

  // -------------------------------------------------------- one action

  ghost predicate Sim(c: Ring32, s: Ring) {
    && c.mem == WrapMem(s.mem)
    && c.consumers == s.consumers
    && c.pcs.Keys == s.pcs.Keys
    && forall t <- c.pcs :: PcSim(s.mem, c.pcs[t], s.pcs[t])
  }

  /** What the unbounded ring does when the wrapped one does `a`: the same,
      except that a lagging thread only catches up. */
  function ShadowAct(c: Ring32, s: Ring, a: Action): Action {
    if a.Run? && a.t in c.pcs && a.t in s.pcs && Lagging(s.mem, c.pcs[a.t], s.pcs[a.t]) then Pause(a.t) else a
  }

  lemma EntrySim(c: Ring32, s: Ring, t: Tid, call: Call)
    requires MemOk(s.mem) && PowerOfTwo(|s.mem.slots|) && Sim(c, s) && Enabled32(c, Invoke(t, call))
    ensures Enabled(s, Invoke(t, call)) && PcSim(s.mem, Entry(call), Entry(call))
  {
    assert PcSim(s.mem, c.pcs[t], s.pcs[t]);
    if call.PutbackSc? { MaskedTest(s.mem); }
  }

  lemma MaskedTest(m: Mem)
    requires MemOk(m) && PowerOfTwo(|m.slots|)
    ensures var w := WrapMem(m);
            w.Index(w.consHead) != w.Index(w.prodTail) ==> m.consHead < m.prodTail
  {
    SlotSim(m, m.consHead);
    SlotSim(m, m.prodTail);
  }

  lemma InvokeSim(c: Ring32, s: Ring, a: Action)
    requires Inv(s) && PowerOfTwo(|s.mem.slots|) && Sim(c, s) && Enabled32(c, a) && a.Invoke?
    ensures Enabled(s, a) && Sim(Exec32(c, a), Exec(s, a))
  {
    EntrySim(c, s, a.t, a.call);
    SimRegroup(c, s, a.t, Outcome32(c.mem, Entry(a.call)), Outcome(s.mem, Entry(a.call)));
  }

  lemma ProdHeadGrows(m: Mem, pc: Pc)
    requires |m.slots| > 0 && !pc.Outside?
    ensures m.prodHead <= Access(m, pc).mem.prodHead
  {
  }

  lemma RunSim(c: Ring32, s: Ring, a: Action)
    requires Inv(s) && PowerOfTwo(|s.mem.slots|) && Sim(c, s) && Enabled32(c, a) && a.Run?
    requires Fresh(s.mem, s.pcs[a.t])
    ensures Enabled(s, ShadowAct(c, s, a)) && Sim(Exec32(c, a), Exec(s, ShadowAct(c, s, a)))
  {
    var t := a.t;
    assert PcSim(s.mem, c.pcs[t], s.pcs[t]);
    assert PcOk(s.mem, s.RoleOf(t), s.pcs[t]);
    AccessSimulates(s.mem, s.RoleOf(t), c.pcs[t], s.pcs[t]);
    ProdHeadGrows(s.mem, s.pcs[t]);
    SimRegroup(c, s, t, Access32(c.mem, c.pcs[t]), Access(s.mem, s.pcs[t]));
  }

  lemma SimRegroup(c: Ring32, s: Ring, t: Tid, o32: Outcome32, o: Outcome)
    requires Sim(c, s) && t in c.pcs && s.mem.prodHead <= o.mem.prodHead
    ensures o32 == Outcome32(c.mem, WrapPc(s.pcs[t])) ==>
              Sim(c.(mem := o32.mem, pcs := c.pcs[t := o32.pc]), s)
    ensures o32.mem == WrapMem(o.mem) && PcSim(o.mem, o32.pc, o.pc) ==>
              Sim(c.(mem := o32.mem, pcs := c.pcs[t := o32.pc]), s.(mem := o.mem, pcs := s.pcs[t := o.pc]))
  {
  }

  lemma StepSim(c: Ring32, s: Ring, a: Action)
    requires Inv(s) && PowerOfTwo(|s.mem.slots|) && Sim(c, s) && Enabled32(c, a)
    requires a.Run? ==> Fresh(s.mem, s.pcs[a.t])
    ensures Enabled(s, ShadowAct(c, s, a)) && Sim(Exec32(c, a), Exec(s, ShadowAct(c, s, a)))
  {
    match a
    case Run(_) => RunSim(c, s, a);
    case Invoke(_, _) => InvokeSim(c, s, a);
    case Pause(_) =>
  }

  lemma SizeFixed(m: Mem, pc: Pc)
    requires |m.slots| > 0 && !pc.Outside?
    ensures |Access(m, pc).mem.slots| == |m.slots|
  {
  }

  // --------------------------------------------------------- whole runs

  /** A run of the unbounded ring, and its actions. */
  datatype Trace = Trace(states: seq<Ring>, acts: seq<Action>)

  ghost predicate StepsTo(s: Ring, a: Action, s': Ring) { Enabled(s, a) && s' == Exec(s, a) }

  ghost function Next(s: Ring, a: Action): Ring { if Enabled(s, a) then Exec(s, a) else s }

  /** What the unbounded ring does along the first `n` actions. */
  ghost function Shadow(run: seq<Ring32>, acts: seq<Action>, n: nat): (tr: Trace)
    requires n <= |acts| < |run|
    ensures |tr.states| == n + 1 && |tr.acts| == n
  {
    if n == 0 then Trace([Ring(Mem(0, 0, 0, 0, run[0].mem.slots, [], []), run[0].consumers, run[0].pcs)], [])
    else
      var tr := Shadow(run, acts, n - 1);
      var a := ShadowAct(run[n - 1], tr.states[n - 1], acts[n - 1]);
      Trace(tr.states + [Next(tr.states[n - 1], a)], tr.acts + [a])
  }

  /** Action `a`, in state `s`, compares no counter that has wrapped onto its snapshot. */
  ghost predicate FreshStep(s: Ring, a: Action) {
    a.Run? && a.t in s.pcs ==> Fresh(s.mem, s.pcs[a.t])
  }

  /** None of the first `n` actions does. */
  ghost predicate FreshUpTo(run: seq<Ring32>, acts: seq<Action>, n: nat)
    requires n <= |acts| < |run|
  {
    forall i: nat | i < n :: FreshAt(run, acts, i)
  }

  ghost predicate FreshAt(run: seq<Ring32>, acts: seq<Action>, i: nat)
    requires i < |acts| < |run|
  {
    FreshStep(Shadow(run, acts, i).states[i], acts[i])
  }

  /** `tr` is a run of the unbounded ring whose states are those of `run` before
      the wrapping; where the actions differ, a thread only makes up for a
      comparison. */
  ghost predicate Follows(run: seq<Ring32>, acts: seq<Action>, tr: Trace) {
    && |tr.acts| <= |acts| < |run| && IsRun(tr.states, tr.acts)
    && (forall i: nat | i < |tr.states| :: FollowsAt(run, tr, i))
    && forall i: nat | i < |tr.acts| :: SameAct(run, acts, tr, i)
  }

  ghost predicate FollowsAt(run: seq<Ring32>, tr: Trace, i: nat)
    requires i < |tr.states| <= |run|
  {
    Sim(run[i], tr.states[i]) && PowerOfTwo(|tr.states[i].mem.slots|)
  }

  ghost predicate SameAct(run: seq<Ring32>, acts: seq<Action>, tr: Trace, i: nat)
    requires i < |tr.acts| <= |acts| < |run| && |tr.states| == |tr.acts| + 1
  {
    tr.acts[i] == ShadowAct(run[i], tr.states[i], acts[i]) && FreshStep(tr.states[i], acts[i])
  }

  lemma FollowsStart(run: seq<Ring32>, acts: seq<Action>)
    requires IsRun32(run, acts)
    ensures Follows(run, acts, Shadow(run, acts, 0))
  {
    SizeFits(run[0].mem.Size());
  }

  lemma RunExtends(run: seq<Ring>, acts: seq<Action>, a: Action, s': Ring)
    requires IsRun(run, acts) && StepsTo(run[|acts|], a, s')
    ensures IsRun(run + [s'], acts + [a])
  {
    forall i | 0 <= i <= |acts| ensures StepAt(run + [s'], acts + [a], i) {
      if i < |acts| { assert StepAt(run, acts, i); }
    }
  }

  lemma FollowsExtends(run: seq<Ring32>, acts: seq<Action>, tr: Trace, a: Action, s': Ring)
    requires Follows(run, acts, tr) && |tr.acts| < |acts|
    requires var n := |tr.acts|;
             && StepsTo(tr.states[n], a, s') && Sim(run[n + 1], s') && PowerOfTwo(|s'.mem.slots|)
             && a == ShadowAct(run[n], tr.states[n], acts[n]) && FreshStep(tr.states[n], acts[n])
    ensures Follows(run, acts, Trace(tr.states + [s'], tr.acts + [a]))
  {
    var tr' := Trace(tr.states + [s'], tr.acts + [a]);
    RunExtends(tr.states, tr.acts, a, s');
    forall i: nat | i < |tr'.states| ensures FollowsAt(run, tr', i) {
      if i < |tr.states| { assert FollowsAt(run, tr, i); }
    }
    forall i: nat | i < |tr'.acts| ensures SameAct(run, acts, tr', i) {
      if i < |tr.acts| { assert SameAct(run, acts, tr, i); }
    }
  }

  lemma StepFollows(c: Ring32, s: Ring, a: Action, c': Ring32)
    requires Inv(s) && PowerOfTwo(|s.mem.slots|) && Sim(c, s) && Enabled32(c, a) && c' == Exec32(c, a) &&
             FreshStep(s, a)
    ensures var a', s' := ShadowAct(c, s, a), Next(s, ShadowAct(c, s, a));
            StepsTo(s, a', s') && Sim(c', s') && PowerOfTwo(|s'.mem.slots|)
  {
    StepSim(c, s, a);
    var a' := ShadowAct(c, s, a);
    if a'.Run? { SizeFixed(s.mem, s.pcs[a'.t]); }
  }

  /** The wrapping 32-bit ring refines the unbounded one: as long as no compared
      counter has wrapped onto its snapshot, every run of the former follows a
      run of the latter. */
  lemma {:induction false} WrappedRunRefines(run: seq<Ring32>, acts: seq<Action>, n: nat) returns (tr: Trace)
    requires IsRun32(run, acts) && n <= |acts| && FreshUpTo(run, acts, n)
    ensures Follows(run, acts, tr) && |tr.acts| == n && tr == Shadow(run, acts, n)
  {
    if n == 0 {
      FollowsStart(run, acts);
      tr := Shadow(run, acts, 0);
    } else {
      var tr0 := WrappedRunRefines(run, acts, n - 1);
      var s := tr0.states[n - 1];
      var a := ShadowAct(run[n - 1], s, acts[n - 1]);
      tr := Trace(tr0.states + [Next(s, a)], tr0.acts + [a]);
      assert FollowsAt(run, tr0, n - 1) && StepAt32(run, acts, n - 1) && FreshAt(run, acts, n - 1);
      RunInv(tr0.states, tr0.acts, n - 1);
      StepFollows(run[n - 1], s, acts[n - 1], run[n]);
      FollowsExtends(run, acts, tr0, a, Next(s, a));
    }
  }

  // ------------------------------------------------- first in, first out

  /** The buffers of the enqueues that completed in the first `i` actions. */
  function Enqueued32(run: seq<Ring32>, acts: seq<Action>, i: nat): seq<Buf>
    requires i <= |acts| <= |run|
  {
    if i == 0 then []
    else
      var a, pcs := acts[i - 1], run[i - 1].pcs;
      Enqueued32(run, acts, i - 1) +
      if a.Run? && a.t in pcs && pcs[a.t].EnqPublish? then [pcs[a.t].buf] else []
  }

  /** The buffers that dequeues returned in the first `i` actions. */
  function Dequeued32(run: seq<Ring32>, acts: seq<Action>, i: nat): seq<Buf>
    requires i <= |acts| <= |run|
  {
    if i == 0 then []
    else
      var a, pcs := acts[i - 1], run[i - 1].pcs;
      Dequeued32(run, acts, i - 1) +
      if a.Run? && a.t in pcs && pcs[a.t].DeqPublish? then [pcs[a.t].buf] else []
  }

  lemma {:induction false} SameTraffic(run: seq<Ring32>, acts: seq<Action>, tr: Trace, i: nat)
    requires Follows(run, acts, tr) && i <= |tr.acts|
    ensures Enqueued32(run, acts, i) == EnqueuedBy(tr.states, tr.acts, i)
    ensures Dequeued32(run, acts, i) == DequeuedBy(tr.states, tr.acts, i)
  {
    if i > 0 {
      SameTraffic(run, acts, tr, i - 1);
      assert FollowsAt(run, tr, i - 1) && SameAct(run, acts, tr, i - 1);
      var t := acts[i - 1].t;
      assert t in run[i - 1].pcs ==> PcSim(tr.states[i - 1].mem, run[i - 1].pcs[t], tr.states[i - 1].pcs[t]);
    }
  }

  /** In every run of the 32-bit ring with fresh snapshots, what dequeues return
      is a prefix of what enqueues published, however often the words wrap, and
      there is always a free slot. */
  lemma FirstInFirstOut32(run: seq<Ring32>, acts: seq<Action>, n: nat)
    requires IsRun32(run, acts) && n <= |acts| && FreshUpTo(run, acts, n) && run[0].consumers == Many
    ensures Dequeued32(run, acts, n) <= Enqueued32(run, acts, n)
    ensures |Enqueued32(run, acts, n)| - |Dequeued32(run, acts, n)| < run[n].mem.Size()
    ensures Wrap(|Dequeued32(run, acts, n)|) == run[n].mem.consTail
    ensures Wrap(|Enqueued32(run, acts, n)|) == run[n].mem.prodTail
  {
    var tr := WrappedRunRefines(run, acts, n);
    SameTraffic(run, acts, tr, n);
    assert FollowsAt(run, tr, 0) && FollowsAt(run, tr, n);
    FirstInFirstOut(tr.states, tr.acts, n);
    CountersInOrder(tr.states, tr.acts, n);
  }

  // ------------------------------------------------------ what replies mean

  /** What an access of the 32-bit ring does to the queue. */
  function EffectOf32(m: Mem32, pc: Pc): Effect {
    match pc
    case EnqPublish(b, _) => Push(b)
    case DeqCas(h) => if h == m.consHead then Pop else Stay
    case ScStoreHead(_) => Pop
    case AdvStoreHead(_) => Pop
    case PutStore(b, _) => Replace(b)
    case _ => Stay
  }

  ghost function StepEffect32(run: seq<Ring32>, acts: seq<Action>, k: nat): Effect
    requires k < |acts| <= |run|
  {
    var a := acts[k];
    if a.Run? && a.t in run[k].pcs then EffectOf32(run[k].mem, run[k].pcs[a.t]) else Stay
  }

  ghost predicate InCall32(run: seq<Ring32>, t: Tid, lo: nat, hi: nat)
    requires hi < |run|
  {
    forall k :: lo <= k <= hi ==> t in run[k].pcs && !run[k].pcs[t].Outside?
  }

  ghost predicate Quiet32(run: seq<Ring32>, acts: seq<Action>, t: Tid, lo: nat, hi: nat)
    requires hi <= |acts| <= |run|
  {
    forall k :: lo <= k < hi && acts[k] == Run(t) ==> StepEffect32(run, acts, k) == Stay
  }

  ghost predicate OnlyAt32(run: seq<Ring32>, acts: seq<Action>, t: Tid, j: nat, i: nat, k: nat)
    requires i < |acts| <= |run|
  {
    j < k <= i && acts[k] == Run(t) && Quiet32(run, acts, t, j + 1, k) && Quiet32(run, acts, t, k + 1, i + 1)
  }

  /** The word under the head holds `b`, and the words of head and tail differ. */
  predicate FrontIs32(m: Mem32, b: Buf) {
    m.Size() > 0 && !Empty32(m) && m.Read(m.consHead) == b
  }

  predicate IsFull32(m: Mem32) { m.consTail < WORD && Full32(m) }

  /** The call that `j` invoked and `i` completed did what `reply` says, at one
      instant in between, told by the words alone. */
  ghost predicate Explained32(run: seq<Ring32>, acts: seq<Action>, t: Tid, j: nat, i: nat, call: Call, reply: Reply)
    requires i < |acts| < |run|
  {
    match reply
    case Enqueued =>
      call.Enqueue? && exists k: nat :: OnlyAt32(run, acts, t, j, i, k) && StepEffect32(run, acts, k) == Push(call.item)
    case NoBufs =>
      call.Enqueue? && Quiet32(run, acts, t, j + 1, i + 1) && exists k: nat :: j < k <= i && IsFull32(run[k].mem)
    case Empty =>
      && (call.DequeueMc? || call.DequeueSc? || call.Peek?)
      && Quiet32(run, acts, t, j + 1, i + 1) && exists k: nat :: j < k <= i && Empty32(run[k].mem)
    case Got(b) =>
      && (call.DequeueMc? || call.DequeueSc?)
      && exists k: nat ::
           OnlyAt32(run, acts, t, j, i, k) && StepEffect32(run, acts, k) == Pop && FrontIs32(run[k].mem, b)
    case Front(b) => call.Peek? && Quiet32(run, acts, t, j + 1, i + 1) && FrontIs32(run[i].mem, b)
    case Advanced =>
      call.AdvanceSc? &&
      (|| (Quiet32(run, acts, t, j + 1, i + 1) && exists k: nat :: j < k <= i && Empty32(run[k].mem))
       || exists k: nat :: OnlyAt32(run, acts, t, j, i, k) && StepEffect32(run, acts, k) == Pop)
    case PutBack =>
      && call.PutbackSc?
      && exists k: nat :: OnlyAt32(run, acts, t, j, i, k) && StepEffect32(run, acts, k) == Replace(call.item)
    case NoReply => false
  }

  lemma SameEffect(m: Mem, cpc: Pc, pc: Pc)
    requires PcSim(m, cpc, pc) && Fresh(m, pc) && (pc.DeqCas? ==> pc.head <= m.consHead)
    ensures EffectOf32(WrapMem(m), cpc) == if Lagging(m, cpc, pc) then Stay else EffectOf(m, pc)
  {
    if pc.DeqCas? { WrappedCompare(pc.head, m.consHead); }
  }

  lemma SameStepEffect(run: seq<Ring32>, acts: seq<Action>, tr: Trace, k: nat)
    requires Follows(run, acts, tr) && k < |tr.acts|
    ensures StepEffect32(run, acts, k) == StepEffect(tr.states, tr.acts, k)
    ensures forall t :: tr.acts[k] == Run(t) ==> acts[k] == Run(t)
  {
    RunInv(tr.states, tr.acts, k);
    assert StepAt(tr.states, tr.acts, k) && FollowsAt(run, tr, k) && SameAct(run, acts, tr, k);
    var s, t := tr.states[k], acts[k].t;
    assert PcSim(s.mem, run[k].pcs[t], s.pcs[t]) && PcOk(s.mem, s.RoleOf(t), s.pcs[t]);
    if acts[k].Run? { SameEffect(s.mem, run[k].pcs[t], s.pcs[t]); }
  }

  lemma SameQueries(m: Mem)
    requires MemOk(m) && PowerOfTwo(|m.slots|)
    ensures IsFull(m) <==> IsFull32(WrapMem(m))
    ensures IsEmpty(m) <==> Empty32(WrapMem(m))
    ensures forall b :: FrontIs(m, b) <==> FrontIs32(WrapMem(m), b)
  {
    QueriesAgree(m);
    SlotSim(m, m.consHead);
  }

  /** The queue that the words describe. */
  function Contents32(m: Mem32): seq<Buf>
    requires m.Size() > 0 && m.prodTail < WORD && m.consHead < WORD
  {
    seq(Sub32(m.prodTail, m.consHead), i requires 0 <= i => m.Read(Add32(m.consHead, i)))
  }

  lemma ContentsAgree(m: Mem)
    requires MemOk(m) && PowerOfTwo(|m.slots|)
    ensures Contents32(WrapMem(m)) == Contents(m)
  {
    SizeFits(|m.slots|);
    WrapSub(m.prodTail, m.consHead);
    forall i: nat | i < m.prodTail - m.consHead
      ensures WrapMem(m).Read(Add32(Wrap(m.consHead), i)) == m.slots[SlotOf(m.consHead + i, |m.slots|)]
    {
      ReadAgrees(m, i);
    }
  }

  lemma ReadAgrees(m: Mem, i: nat)
    requires MemOk(m) && PowerOfTwo(|m.slots|)
    ensures WrapMem(m).Read(Add32(Wrap(m.consHead), i)) == m.slots[SlotOf(m.consHead + i, |m.slots|)]
  {
    WrapAdd(m.consHead, i);
    SlotSim(m, m.consHead + i);
  }

  /** Each action of the 32-bit ring changes the queue by its effect. */
  lemma StepApplies32(run: seq<Ring32>, acts: seq<Action>, i: nat)
    requires IsRun32(run, acts) && i < |acts| && FreshUpTo(run, acts, i + 1)
    ensures var m, m' := run[i].mem, run[i + 1].mem;
            && m.Size() > 0 && m.prodTail < WORD && m.consHead < WORD
            && m'.Size() > 0 && m'.prodTail < WORD && m'.consHead < WORD
            && Applies(StepEffect32(run, acts, i), Contents32(m), Contents32(m'))
  {
    var tr := WrappedRunRefines(run, acts, i + 1);
    assert FollowsAt(run, tr, i) && FollowsAt(run, tr, i + 1);
    SameStepEffect(run, acts, tr, i);
    StepApplies(tr.states, tr.acts, i);
    ContentsAgree(tr.states[i].mem);
    ContentsAgree(tr.states[i + 1].mem);
  }

  /** State `k` and action `k` of the two runs look alike to their callers. */
  ghost predicate AgreesAt(run: seq<Ring32>, acts: seq<Action>, tr: Trace, k: nat)
    requires k < |tr.acts| <= |acts| < |run| && |tr.acts| < |tr.states|
  {
    && StepEffect32(run, acts, k) == StepEffect(tr.states, tr.acts, k)
    && (forall t :: tr.acts[k] == Run(t) ==> acts[k] == Run(t))
    && (IsFull(tr.states[k].mem) <==> IsFull32(run[k].mem)) && (IsEmpty(tr.states[k].mem) <==> Empty32(run[k].mem))
    && forall b :: FrontIs(tr.states[k].mem, b) <==> FrontIs32(run[k].mem, b)
  }

  ghost predicate Agrees(run: seq<Ring32>, acts: seq<Action>, tr: Trace)
    requires |tr.acts| <= |acts| < |run| && |tr.acts| < |tr.states|
  {
    forall k: nat | k < |tr.acts| :: AgreesAt(run, acts, tr, k)
  }

  lemma RunsAgree(run: seq<Ring32>, acts: seq<Action>, tr: Trace)
    requires Follows(run, acts, tr)
    ensures Agrees(run, acts, tr)
  {
    forall k: nat | k < |tr.acts| ensures AgreesAt(run, acts, tr, k) {
      SameStepEffect(run, acts, tr, k);
      RunInv(tr.states, tr.acts, k);
      assert FollowsAt(run, tr, k);
      SameQueries(tr.states[k].mem);
    }
  }

  lemma QuietInWords(run: seq<Ring32>, acts: seq<Action>, tr: Trace, t: Tid, lo: nat, hi: nat)
    requires hi <= |tr.acts| <= |acts| < |run| && |tr.acts| < |tr.states| && Agrees(run, acts, tr)
    requires Quiet(tr.states, tr.acts, t, lo, hi)
    ensures Quiet32(run, acts, t, lo, hi)
  {
    forall k | lo <= k < hi && acts[k] == Run(t) ensures StepEffect32(run, acts, k) == Stay {
      assert AgreesAt(run, acts, tr, k);
    }
  }

  lemma OnlyInWords(run: seq<Ring32>, acts: seq<Action>, tr: Trace,
                    t: Tid, j: nat, i: nat, k: nat)
    requires i < |tr.acts| <= |acts| < |run| && |tr.acts| < |tr.states| && Agrees(run, acts, tr)
    requires OnlyAt(tr.states, tr.acts, t, j, i, k)
    ensures OnlyAt32(run, acts, t, j, i, k) && AgreesAt(run, acts, tr, k)
  {
    assert AgreesAt(run, acts, tr, k);
    QuietInWords(run, acts, tr, t, j + 1, k);
    QuietInWords(run, acts, tr, t, k + 1, i + 1);
  }

  /** A reply explained by one access to the queue. */
  lemma EffectInWords(run: seq<Ring32>, acts: seq<Action>, tr: Trace,
                      t: Tid, j: nat, i: nat, call: Call, reply: Reply)
    requires i < |tr.acts| <= |acts| < |run| && |tr.acts| < |tr.states| && Agrees(run, acts, tr)
    requires Explained(tr.states, tr.acts, t, j, i, call, reply) && (reply.Enqueued? || reply.Got? || reply.PutBack?)
    ensures Explained32(run, acts, t, j, i, call, reply)
  {
    var k: nat :| OnlyAt(tr.states, tr.acts, t, j, i, k) &&
      if reply.Enqueued? then StepEffect(tr.states, tr.acts, k) == Push(call.item)
      else if reply.Got? then StepEffect(tr.states, tr.acts, k) == Pop && FrontIs(tr.states[k].mem, reply.item)
      else StepEffect(tr.states, tr.acts, k) == Replace(call.item);
    OnlyInWords(run, acts, tr, t, j, i, k);
  }

  /** A reply explained by a state of the queue. */
  lemma StateInWords(run: seq<Ring32>, acts: seq<Action>, tr: Trace,
                     t: Tid, j: nat, i: nat, call: Call, reply: Reply)
    requires i < |tr.acts| <= |acts| < |run| && |tr.acts| < |tr.states| && Agrees(run, acts, tr)
    requires Explained(tr.states, tr.acts, t, j, i, call, reply) && (reply.NoBufs? || reply.Empty? || reply.Front?)
    ensures Explained32(run, acts, t, j, i, call, reply)
  {
    QuietInWords(run, acts, tr, t, j + 1, i + 1);
    if reply.Front? {
      assert AgreesAt(run, acts, tr, i);
    } else {
      var k: nat :| j < k <= i && if reply.NoBufs? then IsFull(tr.states[k].mem) else IsEmpty(tr.states[k].mem);
      assert AgreesAt(run, acts, tr, k);
    }
  }

  lemma AdvancedInWords(run: seq<Ring32>, acts: seq<Action>, tr: Trace,
                        t: Tid, j: nat, i: nat, call: Call)
    requires i < |tr.acts| <= |acts| < |run| && |tr.acts| < |tr.states| && Agrees(run, acts, tr)
    requires Explained(tr.states, tr.acts, t, j, i, call, Advanced)
    ensures Explained32(run, acts, t, j, i, call, Advanced)
  {
    if k: nat :| OnlyAt(tr.states, tr.acts, t, j, i, k) && StepEffect(tr.states, tr.acts, k) == Pop {
      OnlyInWords(run, acts, tr, t, j, i, k);
    } else {
      QuietInWords(run, acts, tr, t, j + 1, i + 1);
      var k: nat :| j < k <= i && IsEmpty(tr.states[k].mem);
      assert AgreesAt(run, acts, tr, k);
    }
  }

  lemma ExplainedInWords(run: seq<Ring32>, acts: seq<Action>, tr: Trace,
                         t: Tid, j: nat, i: nat, call: Call, reply: Reply)
    requires i < |tr.acts| <= |acts| < |run| && |tr.acts| < |tr.states| && Agrees(run, acts, tr)
    requires Explained(tr.states, tr.acts, t, j, i, call, reply)
    ensures Explained32(run, acts, t, j, i, call, reply)
  {
    match reply
    case Advanced => AdvancedInWords(run, acts, tr, t, j, i, call);
    case NoBufs => StateInWords(run, acts, tr, t, j, i, call, reply);
    case Empty => StateInWords(run, acts, tr, t, j, i, call, reply);
    case Front(_) => StateInWords(run, acts, tr, t, j, i, call, reply);
    case NoReply =>
    case _ => EffectInWords(run, acts, tr, t, j, i, call, reply);
  }

  /** The two runs enter and leave calls together. */
  lemma SameOutside(run: seq<Ring32>, acts: seq<Action>, tr: Trace, k: nat, t: Tid)
    requires Follows(run, acts, tr) && k < |tr.states|
    ensures t in run[k].pcs <==> t in tr.states[k].pcs
    ensures t in run[k].pcs && (run[k].pcs[t].Outside? || tr.states[k].pcs[t].Outside?) ==>
              run[k].pcs[t] == tr.states[k].pcs[t]
  {
    assert FollowsAt(run, tr, k);
    if t in run[k].pcs { assert PcSim(tr.states[k].mem, run[k].pcs[t], tr.states[k].pcs[t]); }
  }

  /** The action with which a call returns is the same in both runs. */
  lemma SameReturn(run: seq<Ring32>, acts: seq<Action>, tr: Trace, i: nat)
    requires Follows(run, acts, tr) && IsRun32(run, acts) && i < |tr.acts| && acts[i].Run?
    requires acts[i].t in run[i + 1].pcs && run[i + 1].pcs[acts[i].t].Outside?
    ensures tr.acts[i] == acts[i] && acts[i].t in tr.states[i + 1].pcs
    ensures tr.states[i + 1].pcs[acts[i].t] == run[i + 1].pcs[acts[i].t]
  {
    SameOutside(run, acts, tr, i + 1, acts[i].t);
    assert StepAt32(run, acts, i) && SameAct(run, acts, tr, i);
  }

  /** Every call of the 32-bit ring that returns in a run with fresh snapshots
      has changed the queue as its reply says, in one access between its
      invocation and its return; one that reports a full or an empty ring met an
      instant at which buf_ring_full or buf_ring_empty holds. */
  lemma ReplyExplained32(run: seq<Ring32>, acts: seq<Action>, i: nat)
    requires IsRun32(run, acts) && i < |acts| && FreshUpTo(run, acts, i + 1) && acts[i].Run?
    requires acts[i].t in run[i + 1].pcs && run[i + 1].pcs[acts[i].t].Outside?
    ensures exists j: nat, call ::
              && j < i && acts[j] == Invoke(acts[i].t, call) && InCall32(run, acts[i].t, j + 1, i)
              && Explained32(run, acts, acts[i].t, j, i, call, run[i + 1].pcs[acts[i].t].reply)
  {
    var t, n, reply := acts[i].t, i + 1, run[i + 1].pcs[acts[i].t].reply;
    var tr := WrappedRunRefines(run, acts, n);
    RunsAgree(run, acts, tr);
    SameReturn(run, acts, tr, i);
    ReplyExplained(tr.states, tr.acts, i);
    var j: nat, call :| j < i && tr.acts[j] == Invoke(t, call) && InCall(tr.states, t, j + 1, i) &&
      Explained(tr.states, tr.acts, t, j, i, call, reply);
    assert SameAct(run, acts, tr, j);
    forall k | j + 1 <= k <= i ensures t in run[k].pcs && !run[k].pcs[t].Outside? {
      SameOutside(run, acts, tr, k, t);
    }
    ExplainedInWords(run, acts, tr, t, j, i, call, reply);
  }

  // ------------------------------------------------- calls that end in time

  /** Each access of the first `n` actions is made less than 3 * 2^30 actions,
      of all threads together, after its thread invoked a call. */
  ghost predicate Prompt(acts: seq<Action>, n: nat)
    requires n <= |acts|
  {
    forall i: nat | i < n && acts[i].Run? :: PromptAt(acts, i)
  }

  ghost predicate PromptAt(acts: seq<Action>, i: nat)
    requires i < |acts|
  {
    exists j: nat :: j < i && i - j < 0xC000_0000 && acts[j].Invoke? && acts[j].t == acts[i].t
  }

  /** The snapshots of a thread at `pc` were taken from `m` on. */
  predicate Since(m: Mem, pc: Pc) {
    match pc
    case EnqLoadTail(_, h) => m.prodHead <= h
    case EnqRecheckHead(_, h, tail) => m.prodHead <= h && m.consTail <= tail
    case EnqRecheckTail(_, h, tail) => m.prodHead <= h && m.consTail <= tail
    case EnqCas(_, h) => m.prodHead <= h
    case DeqLoadTail(h) => m.consHead <= h
    case DeqCas(h) => m.consHead <= h
    case _ => true
  }

  /** No counter has gone back, and none has moved by more than `d`. */
  predicate Moved(m: Mem, m': Mem, d: nat) {
    && m.prodHead <= m'.prodHead <= m.prodHead + d && m.prodTail <= m'.prodTail <= m.prodTail + d
    && m.consHead <= m'.consHead <= m.consHead + d && m.consTail <= m'.consTail <= m.consTail + d
    && |m'.slots| == |m.slots|
  }

  lemma AccessMoves(m: Mem, role: Role, pc: Pc)
    requires MemOk(m) && PcOk(m, role, pc) && !pc.Outside?
    ensures Moved(m, Access(m, pc).mem, 1)
  {
    if pc.Producing() { EnqueueMoves(m, role, pc); } else if !pc.Dequeuing() { SingleMoves(m, role, pc); }
  }

  lemma EnqueueMoves(m: Mem, role: Role, pc: Pc)
    requires MemOk(m) && PcOk(m, role, pc) && pc.Producing()
    ensures Moved(m, AccessEnqueue(m, pc).mem, 1)
  {
  }

  lemma SingleMoves(m: Mem, role: Role, pc: Pc)
    requires MemOk(m) && PcOk(m, role, pc) && !pc.Producing() && !pc.Dequeuing() && !pc.Outside?
    ensures Moved(m, AccessSingle(m, pc).mem, 1)
  {
  }

  lemma SinceNext(m0: Mem, m: Mem, pc: Pc)
    requires |m.slots| > 0 && !pc.Outside? && Since(m0, pc)
    requires m0.prodHead <= m.prodHead && m0.consTail <= m.consTail && m0.consHead <= m.consHead
    ensures Since(m0, Access(m, pc).pc)
  {
  }

  /** The snapshots of thread `t` in state `i` are no older than its invocation at `j`. */
  lemma {:induction false} SnapshotsSince(run: seq<Ring>, acts: seq<Action>, t: Tid, j: nat, i: nat)
    requires IsRun(run, acts) && j < i < |run| && acts[j].Invoke? && acts[j].t == t
    ensures Moved(run[j].mem, run[i].mem, i - j) && t in run[i].pcs && Since(run[j].mem, run[i].pcs[t])
  {
    assert StepAt(run, acts, i - 1);
    if i > j + 1 {
      SnapshotsSince(run, acts, t, j, i - 1);
      var s, u := run[i - 1], acts[i - 1].t;
      if acts[i - 1].Run? {
        Returning(run, acts, u, i - 1);
        AccessMoves(s.mem, s.RoleOf(u), s.pcs[u]);
        if u == t { SinceNext(run[j].mem, s.mem, s.pcs[t]); }
      }
    }
  }

  /** A snapshot that old is fresh. */
  lemma SinceIsFresh(m0: Mem, m: Mem, pc: Pc, d: nat)
    requires MemOk(m0) && MemOk(m) && PowerOfTwo(|m.slots|)
    requires Moved(m0, m, d) && Since(m0, pc) && d < 0xC000_0000
    ensures Fresh(m, pc)
  {
    SizeFits(|m.slots|);
  }

  /** Calls that end in time compare fresh snapshots only. */
  lemma {:induction false} PromptIsFresh(run: seq<Ring32>, acts: seq<Action>, n: nat)
    requires IsRun32(run, acts) && n <= |acts| && Prompt(acts, n)
    ensures FreshUpTo(run, acts, n)
  {
    if n > 0 {
      PromptIsFresh(run, acts, n - 1);
      if acts[n - 1].Run? { LastIsFresh(run, acts, n - 1); }
    }
  }

  lemma RecentIsFresh(run: seq<Ring>, acts: seq<Action>, t: Tid, j: nat, i: nat)
    requires IsRun(run, acts) && j < i < |run| && i - j < 0xC000_0000 && acts[j].Invoke? && acts[j].t == t
    requires PowerOfTwo(|run[i].mem.slots|)
    ensures t in run[i].pcs && Fresh(run[i].mem, run[i].pcs[t])
  {
    SnapshotsSince(run, acts, t, j, i);
    RunInv(run, acts, j);
    RunInv(run, acts, i);
    SinceIsFresh(run[j].mem, run[i].mem, run[i].pcs[t], i - j);
  }

  lemma LastIsFresh(run: seq<Ring32>, acts: seq<Action>, i: nat)
    requires IsRun32(run, acts) && i < |acts| && acts[i].Run? && PromptAt(acts, i) && FreshUpTo(run, acts, i)
    ensures FreshAt(run, acts, i)
  {
    var j: nat :| j < i && i - j < 0xC000_0000 && acts[j].Invoke? && acts[j].t == acts[i].t;
    var tr := WrappedRunRefines(run, acts, i);
    assert SameAct(run, acts, tr, j) && FollowsAt(run, tr, i);
    RecentIsFresh(tr.states, tr.acts, acts[i].t, j, i);
  }
}
