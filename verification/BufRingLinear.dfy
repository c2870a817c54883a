/** Every operation on the ring takes effect at one instant inside its call.

    The effect of an access on the queue that the ring holds is read off the
    access itself (EffectOf); AccessEffect shows that this is what happens to
    the queue, and ReplyExplained that each call has exactly the effect its
    reply reports, at one instant between its invocation and its return. */
module BufRingLinear {
  import opened BufRing
  import opened BufRingSafety

  datatype Effect = Stay | Push(item: Buf) | Pop | Replace(item: Buf)

  function EffectOf(m: Mem, pc: Pc): Effect {
    match pc
    case EnqPublish(b, _) => Push(b)
    case DeqCas(h) => if h == m.consHead then Pop else Stay
    case ScStoreHead(_) => Pop
    case AdvStoreHead(_) => Pop
    case PutStore(b, _) => Replace(b)
    case _ => Stay
  }

  predicate Applies(e: Effect, before: seq<Buf>, after: seq<Buf>) {
    match e
    case Stay => after == before
    case Push(b) => after == before + [b]
    case Pop => before != [] && after == before[1..]
    case Replace(b) => before != [] && after == before[0 := b]
  }

  lemma ContentsPublished(m: Mem)
    requires MemOk(m)
    ensures Contents(m) == m.published[m.consHead..m.prodTail]
  {
  }

  lemma EnqueueEffect(m: Mem, role: Role, pc: Pc)
    requires MemOk(m) && PcOk(m, role, pc) && pc.Producing()
    ensures var m' := AccessEnqueue(m, pc).mem;
            MemOk(m') && Applies(EffectOf(m, pc), Contents(m), Contents(m'))
  {
    EnqueueOwn(m, role, pc);
    ContentsPublished(m);
    ContentsPublished(AccessEnqueue(m, pc).mem);
  }

  lemma SingleEffect(m: Mem, role: Role, pc: Pc)
    requires MemOk(m) && PcOk(m, role, pc) && !pc.Producing() && !pc.Dequeuing() && !pc.Outside?
    ensures var m' := AccessSingle(m, pc).mem;
            MemOk(m') && Applies(EffectOf(m, pc), Contents(m), Contents(m'))
  {
    SingleOwn(m, role, pc);
    ContentsPublished(m);
    ContentsPublished(AccessSingle(m, pc).mem);
  }

  lemma AccessEffect(m: Mem, role: Role, pc: Pc)
    requires MemOk(m) && PcOk(m, role, pc) && !pc.Outside?
    ensures var m' := Access(m, pc).mem;
            MemOk(m') && Applies(EffectOf(m, pc), Contents(m), Contents(m'))
  {
    if pc.Producing() {
      EnqueueEffect(m, role, pc);
    } else if pc.Dequeuing() {
      DequeueOwn(m, role, pc);
      ContentsPublished(m);
      ContentsPublished(AccessDequeue(m, pc).mem);
    } else {
      SingleEffect(m, role, pc);
    }
  }

  /** Thread `t` is inside a call in the states `lo` to `hi`. */
  ghost predicate InCall(run: seq<Ring>, t: Tid, lo: nat, hi: nat)
    requires hi < |run|
  {
    forall k :: lo <= k <= hi ==> t in run[k].pcs && !run[k].pcs[t].Outside?
  }

  /** What action `k` does to the queue. */
  ghost function StepEffect(run: seq<Ring>, acts: seq<Action>, k: nat): Effect
    requires k < |acts| <= |run|
  {
    var a := acts[k];
    if a.Run? && a.t in run[k].pcs then EffectOf(run[k].mem, run[k].pcs[a.t]) else Stay
  }

  /** The accesses `t` makes in actions `lo` to `hi - 1` leave the queue alone. */
  ghost predicate Quiet(run: seq<Ring>, acts: seq<Action>, t: Tid, lo: nat, hi: nat)
    requires hi <= |acts| <= |run|
  {
    forall k :: lo <= k < hi && acts[k] == Run(t) ==> StepEffect(run, acts, k) == Stay
  }

  /** Action `k` is the one access by which `t` changes the queue in actions `j + 1` to `i`. */
  ghost predicate OnlyAt(run: seq<Ring>, acts: seq<Action>, t: Tid, j: nat, i: nat, k: nat)
    requires i < |acts| <= |run|
  {
    j < k <= i && acts[k] == Run(t) && Quiet(run, acts, t, j + 1, k) && Quiet(run, acts, t, k + 1, i + 1)
  }

  /** Each action changes the queue by its effect: the steps of a run are the
      steps of one atomic queue. */
  lemma StepApplies(run: seq<Ring>, acts: seq<Action>, i: nat)
    requires IsRun(run, acts) && i < |acts|
    ensures MemOk(run[i].mem) && MemOk(run[i + 1].mem)
    ensures Applies(StepEffect(run, acts, i), Contents(run[i].mem), Contents(run[i + 1].mem))
  {
    RunInv(run, acts, i);
    RunInv(run, acts, i + 1);
    assert StepAt(run, acts, i);
    var s, t := run[i], acts[i].t;
    assert PcOk(s.mem, s.RoleOf(t), s.pcs[t]);
    if acts[i].Run? {
      AccessEffect(s.mem, s.RoleOf(t), s.pcs[t]);
    }
  }

  /** The program points of each call. */
  predicate Belongs(call: Call, pc: Pc) {
    match call
    case Enqueue(b) => pc.Producing() && pc.buf == b
    case DequeueMc => pc.Dequeuing()
    case DequeueSc => pc.ScLoadHead? || pc.ScLoadTail? || pc.ScStoreHead? || pc.ScRead? || pc.ScStoreTail?
    case AdvanceSc => pc.AdvLoadHead? || pc.AdvLoadTail? || pc.AdvStoreHead? || pc.AdvStoreTail?
    case PutbackSc(b) => (pc.PutLoadHead? || pc.PutStore?) && pc.buf == b
    case Peek => pc.PeekLoadTail? || pc.PeekLoadHead? || pc.PeekRead?
  }

  /** The thread has taken its element off the queue. */
  predicate Claimed(pc: Pc) { pc.OwnsCons() || pc.Halfway() }

  lemma BelongsNext(m: Mem, pc: Pc, call: Call)
    requires |m.slots| > 0 && !pc.Outside? && Belongs(call, pc)
    ensures var o := Access(m, pc); o.pc.Outside? || Belongs(call, o.pc)
    ensures var o := Access(m, pc); !o.pc.Outside? && Claimed(pc) ==>
              Claimed(o.pc) && o.pc.head == pc.head && EffectOf(m, pc) == Stay
    ensures var o := Access(m, pc); !o.pc.Outside? && !Claimed(pc) ==>
              (Claimed(o.pc) <==> EffectOf(m, pc) == Pop) && EffectOf(m, pc) in {Stay, Pop}
    ensures var o := Access(m, pc); !o.pc.Outside? && !Claimed(pc) && Claimed(o.pc) ==> o.pc.head == pc.head
  {
  }

  /** No counter goes back, and tickets below `consHead` keep their published buffer. */
  ghost predicate Settled(m: Mem, m': Mem) {
    && m.consTail <= m'.consTail && m.consHead <= m'.consHead && m.prodTail <= m'.prodTail
    && m.consHead <= |m.published| <= |m'.published| && m'.consHead <= |m'.published|
    && forall h :: 0 <= h < m.consHead ==> m'.published[h] == m.published[h]
  }

  lemma AccessHistory(m: Mem, role: Role, pc: Pc)
    requires MemOk(m) && PcOk(m, role, pc) && !pc.Outside?
    ensures Settled(m, Access(m, pc).mem)
  {
    if pc.Producing() {
      EnqueueHistory(m, role, pc);
    } else if !pc.Dequeuing() {
      SingleHistory(m, role, pc);
    }
  }

  lemma EnqueueHistory(m: Mem, role: Role, pc: Pc)
    requires MemOk(m) && PcOk(m, role, pc) && pc.Producing()
    ensures Settled(m, AccessEnqueue(m, pc).mem)
  {
  }

  lemma SingleHistory(m: Mem, role: Role, pc: Pc)
    requires MemOk(m) && PcOk(m, role, pc) && !pc.Producing() && !pc.Dequeuing() && !pc.Outside?
    ensures Settled(m, AccessSingle(m, pc).mem)
  {
  }

  lemma StepHistory(run: seq<Ring>, acts: seq<Action>, i: nat)
    requires IsRun(run, acts) && i < |acts|
    ensures Settled(run[i].mem, run[i + 1].mem)
    ensures acts[i].t in run[i].pcs
    ensures forall u :: acts[i].Spares(u) ==>
              (u in run[i].pcs <==> u in run[i + 1].pcs) && (u in run[i].pcs ==> run[i + 1].pcs[u] == run[i].pcs[u])
  {
    RunInv(run, acts, i);
    assert StepAt(run, acts, i);
    var s, t := run[i], acts[i].t;
    assert PcOk(s.mem, s.RoleOf(t), s.pcs[t]);
    if acts[i].Run? {
      AccessHistory(s.mem, s.RoleOf(t), s.pcs[t]);
    }
  }

  /** Where thread `t`, inside a call in state `i`, stands: `j` invoked the
      call; nothing has changed the queue since unless `t` has claimed its
      element, which it then did at `k` only, at the front of the queue. */
  ghost predicate Progress(run: seq<Ring>, acts: seq<Action>, t: Tid, i: nat, j: nat, call: Call, k: nat)
    requires i <= |acts| < |run|
  {
    && j < i && acts[j] == Invoke(t, call)
    && InCall(run, t, j + 1, i)
    && Belongs(call, run[i].pcs[t])
    && if Claimed(run[i].pcs[t]) then
         && j < k < i && acts[k] == Run(t) && StepEffect(run, acts, k) == Pop
         && Quiet(run, acts, t, j + 1, k) && Quiet(run, acts, t, k + 1, i)
         && FrontAt(run[k].mem, run[i].mem, run[i].pcs[t].head)
       else Quiet(run, acts, t, j + 1, i)
  }

  /** The front of the queue of `m` is the buffer that `m'` remembers for ticket `h`. */
  ghost predicate FrontAt(m: Mem, m': Mem, h: nat) {
    && |m.slots| > 0 && m.consHead < m.prodTail
    && h < m'.consHead <= |m'.published|
    && Contents(m)[0] == m'.published[h]
  }

  /** A step that leaves the thread where it is. */
  lemma ProgressOther(run: seq<Ring>, acts: seq<Action>, t: Tid, i: nat, j: nat, call: Call, k: nat)
    requires i < |acts| < |run| && acts[i].Spares(t) && t in run[i].pcs && t in run[i + 1].pcs
    requires run[i + 1].pcs[t] == run[i].pcs[t] && Settled(run[i].mem, run[i + 1].mem)
    requires Progress(run, acts, t, i, j, call, k)
    ensures Progress(run, acts, t, i + 1, j, call, k)
  {
  }

  /** A step of the thread itself that does not return. */
  lemma ProgressOwn(run: seq<Ring>, acts: seq<Action>, t: Tid, i: nat, j: nat, call: Call, k: nat) returns (k': nat)
    requires IsRun(run, acts) && i < |acts| && acts[i] == Run(t)
    requires t in run[i + 1].pcs && !run[i + 1].pcs[t].Outside?
    requires Progress(run, acts, t, i, j, call, k)
    ensures Progress(run, acts, t, i + 1, j, call, k')
  {
    StepHistory(run, acts, i);
    var m, pc := run[i].mem, run[i].pcs[t];
    assert StepAt(run, acts, i);
    BelongsNext(m, pc, call);
    k' := if Claimed(pc) then k else i;
    if !Claimed(pc) && Claimed(run[i + 1].pcs[t]) {
      PopFront(run, acts, i);
    }
  }

  lemma PopFront(run: seq<Ring>, acts: seq<Action>, i: nat)
    requires IsRun(run, acts) && i < |acts| && StepEffect(run, acts, i) == Pop
    ensures var pc := run[i].pcs[acts[i].t]; FrontAt(run[i].mem, run[i + 1].mem, pc.head)
  {
    RunInv(run, acts, i);
    assert StepAt(run, acts, i);
    var s, t := run[i], acts[i].t;
    assert PcOk(s.mem, s.RoleOf(t), s.pcs[t]);
    ContentsPublished(s.mem);
  }

  lemma {:induction false} CallSoFar(run: seq<Ring>, acts: seq<Action>, t: Tid, i: nat)
    returns (j: nat, call: Call, k: nat)
    requires IsRun(run, acts) && i < |run| && t in run[i].pcs && !run[i].pcs[t].Outside?
    ensures Progress(run, acts, t, i, j, call, k)
  {
    assert i > 0;
    StepHistory(run, acts, i - 1);
    var a := acts[i - 1];
    if a.Spares(t) {
      j, call, k := CallSoFar(run, acts, t, i - 1);
      ProgressOther(run, acts, t, i - 1, j, call, k);
    } else if a.Invoke? {
      assert StepAt(run, acts, i - 1);
      j, call, k := i - 1, a.call, 0;
    } else {
      assert !run[i - 1].pcs[t].Outside? by { assert StepAt(run, acts, i - 1); }
      j, call, k := CallSoFar(run, acts, t, i - 1);
      k := ProgressOwn(run, acts, t, i - 1, j, call, k);
    }
  }

  // ----------------------------------------------------- what a reply reports

  ghost predicate FrontIs(m: Mem, b: Buf) {
    |m.slots| > 0 && m.consHead < m.prodTail && Contents(m)[0] == b
  }

  /** Nothing published and unclaimed. */
  predicate IsEmpty(m: Mem) { m.consHead == m.prodTail }

  /** All `size - 1` usable slots claimed. */
  predicate IsFull(m: Mem) { m.prodHead == m.consTail + |m.slots| - 1 }

  /** The call that `j` invoked and `i` completed did what `reply` says, at one
      instant in between. */
  ghost predicate Explained(run: seq<Ring>, acts: seq<Action>, t: Tid, j: nat, i: nat, call: Call, reply: Reply)
    requires i < |acts| < |run|
  {
    match reply
    case Enqueued =>
      call.Enqueue? && exists k: nat :: OnlyAt(run, acts, t, j, i, k) && StepEffect(run, acts, k) == Push(call.item)
    case NoBufs =>
      call.Enqueue? && Quiet(run, acts, t, j + 1, i + 1) && exists k: nat :: j < k <= i && IsFull(run[k].mem)
    case Empty =>
      && (call.DequeueMc? || call.DequeueSc? || call.Peek?)
      && Quiet(run, acts, t, j + 1, i + 1) && exists k: nat :: j < k <= i && IsEmpty(run[k].mem)
    case Got(b) =>
      && (call.DequeueMc? || call.DequeueSc?)
      && exists k: nat :: OnlyAt(run, acts, t, j, i, k) && StepEffect(run, acts, k) == Pop && FrontIs(run[k].mem, b)
    case Front(b) => call.Peek? && Quiet(run, acts, t, j + 1, i + 1) && FrontIs(run[i].mem, b)
    case Advanced =>
      call.AdvanceSc? &&
      (|| (Quiet(run, acts, t, j + 1, i + 1) && exists k: nat :: j < k <= i && IsEmpty(run[k].mem))
       || exists k: nat :: OnlyAt(run, acts, t, j, i, k) && StepEffect(run, acts, k) == Pop)
    case PutBack =>
      && call.PutbackSc?
      && exists k: nat :: OnlyAt(run, acts, t, j, i, k) && StepEffect(run, acts, k) == Replace(call.item)
    case NoReply => false
  }

  /** The access that leads to the second re-read. */
  lemma Rechecking(m: Mem, role: Role, pc: Pc)
    requires MemOk(m) && PcOk(m, role, pc) && !pc.Outside? && Access(m, pc).pc.EnqRecheckTail?
    ensures var o := Access(m, pc); o.mem == m && o.pc.head == m.prodHead && o.pc.tail <= m.consTail
  {
  }

  lemma RecheckedAt(run: seq<Ring>, acts: seq<Action>, t: Tid, f: nat)
    requires IsRun(run, acts) && f < |acts| && !acts[f].Spares(t) && t in run[f + 1].pcs &&
             run[f + 1].pcs[t].EnqRecheckTail?
    ensures t in run[f].pcs && !run[f].pcs[t].Outside? && run[f].mem == run[f + 1].mem
    ensures run[f].mem.prodHead == run[f + 1].pcs[t].head && run[f + 1].pcs[t].tail <= run[f].mem.consTail
  {
    assert StepAt(run, acts, f);
    Returning(run, acts, t, f);
    Rechecking(run[f].mem, run[f].RoleOf(t), run[f].pcs[t]);
  }

  /** A thread about to compare `consTail` again found `prodHead` unchanged at
      an instant `f` of the same call. */
  lemma {:induction false} HeadRechecked(run: seq<Ring>, acts: seq<Action>, t: Tid, i: nat) returns (f: nat)
    requires IsRun(run, acts) && i < |run| && t in run[i].pcs && run[i].pcs[t].EnqRecheckTail?
    ensures f < i && InCall(run, t, f, i)
    ensures run[f].mem.prodHead == run[i].pcs[t].head
    ensures run[i].pcs[t].tail <= run[f].mem.consTail <= run[i].mem.consTail
    ensures |run[f].mem.slots| == |run[i].mem.slots|
  {
    assert i > 0;
    if !acts[i - 1].Spares(t) {
      f := i - 1;
      RecheckedAt(run, acts, t, f);
    } else {
      StepHistory(run, acts, i - 1);
      assert StepAt(run, acts, i - 1);
      f := HeadRechecked(run, acts, t, i - 1);
    }
  }

  /** A peeking thread read `prodTail` at an instant `f` of the same call, and
      the head it will compare has not moved since. */
  lemma {:induction false} TailPeeked(run: seq<Ring>, acts: seq<Action>, t: Tid, i: nat) returns (f: nat)
    requires IsRun(run, acts) && i < |run| && t in run[i].pcs && run[i].pcs[t].PeekLoadHead?
    ensures f < i && InCall(run, t, f, i)
    ensures run[f].mem.prodTail == run[i].pcs[t].tail && run[f].mem.consHead == run[i].mem.consHead
  {
    assert i > 0;
    StepHistory(run, acts, i - 1);
    assert StepAt(run, acts, i - 1);
    if !acts[i - 1].Spares(t) {
      f := i - 1;
    } else {
      f := TailPeeked(run, acts, t, i - 1);
      OthersKeepHead(run, acts, t, i - 1);
    }
  }

  /** While a thread peeks, no other thread moves the consumer head. */
  lemma OthersKeepHead(run: seq<Ring>, acts: seq<Action>, t: Tid, i: nat)
    requires IsRun(run, acts) && i < |acts| && acts[i].Spares(t) && t in run[i].pcs && run[i].pcs[t].PeekLoadHead?
    ensures run[i + 1].mem.consHead == run[i].mem.consHead
  {
    RunInv(run, acts, i);
    assert StepAt(run, acts, i);
    var s, u := run[i], acts[i].t;
    assert PcOk(s.mem, s.RoleOf(t), s.pcs[t]);
    assert PcOk(s.mem, s.RoleOf(u), s.pcs[u]);
  }

  /** The state an invocation starts from is outside the call it starts. */
  lemma AfterInvocation(run: seq<Ring>, acts: seq<Action>, t: Tid, j: nat, f: nat, i: nat)
    requires IsRun(run, acts) && j < i < |run| && f <= i && j < |acts|
    requires acts[j].Invoke? && acts[j].t == t && InCall(run, t, f, i)
    ensures j < f
  {
    assert StepAt(run, acts, j);
  }

  /** The facts about the returning step that the replies below need. */
  lemma Returning(run: seq<Ring>, acts: seq<Action>, t: Tid, i: nat)
    requires IsRun(run, acts) && i < |acts| && acts[i] == Run(t)
    ensures t in run[i].pcs && t in run[i + 1].pcs && !run[i].pcs[t].Outside?
    ensures MemOk(run[i].mem) && PcOk(run[i].mem, run[i].RoleOf(t), run[i].pcs[t])
    ensures run[i + 1].pcs[t] == Access(run[i].mem, run[i].pcs[t]).pc
  {
    RunInv(run, acts, i);
    assert StepAt(run, acts, i);
    assert PcOk(run[i].mem, run[i].RoleOf(t), run[i].pcs[t]);
  }

  /** Where a call stands before the access that makes it return. */
  lemma LastPc(m: Mem, role: Role, pc: Pc)
    requires MemOk(m) && PcOk(m, role, pc) && !pc.Outside? && Access(m, pc).pc.Outside?
    ensures match Access(m, pc).pc.reply
            case NoBufs => pc.EnqRecheckTail? && pc.tail == m.consTail && pc.head == pc.tail + |m.slots| - 1 &&
                           EffectOf(m, pc) == Stay
            case Empty => EffectOf(m, pc) == Stay &&
                          if pc.PeekLoadHead? then pc.tail == m.consHead
                          else (pc.DeqLoadTail? || pc.ScLoadTail?) && IsEmpty(m)
            case Got(b) => (pc.DeqPublish? || pc.ScStoreTail?) &&
                           pc.head < |m.published| && m.published[pc.head] == b && EffectOf(m, pc) == Stay
            case Front(b) => pc.PeekRead? && m.consHead < m.prodTail && m.published[m.consHead] == b &&
                             EffectOf(m, pc) == Stay
            case Advanced => EffectOf(m, pc) == Stay && if pc.AdvLoadTail? then IsEmpty(m) else pc.AdvStoreTail?
            case Enqueued => pc.EnqPublish?
            case PutBack => pc.PutStore?
            case NoReply => false
  {
  }

  lemma LastPcAt(run: seq<Ring>, acts: seq<Action>, t: Tid, i: nat)
    requires IsRun(run, acts) && i < |acts| && acts[i] == Run(t) && t in run[i + 1].pcs && run[i + 1].pcs[t].Outside?
    ensures t in run[i].pcs && !run[i].pcs[t].Outside? && MemOk(run[i].mem)
    ensures var m, pc, effect := run[i].mem, run[i].pcs[t], StepEffect(run, acts, i);
            match run[i + 1].pcs[t].reply
            case NoBufs => pc.EnqRecheckTail? && pc.tail == m.consTail && pc.head == pc.tail + |m.slots| - 1 &&
                           effect == Stay
            case Empty => effect == Stay &&
                          if pc.PeekLoadHead? then pc.tail == m.consHead
                          else (pc.DeqLoadTail? || pc.ScLoadTail?) && IsEmpty(m)
            case Got(b) => (pc.DeqPublish? || pc.ScStoreTail?) &&
                           pc.head < |m.published| && m.published[pc.head] == b && effect == Stay
            case Front(b) => pc.PeekRead? && m.consHead < m.prodTail && m.published[m.consHead] == b && effect == Stay
            case Advanced => effect == Stay && if pc.AdvLoadTail? then IsEmpty(m) else pc.AdvStoreTail?
            case Enqueued => pc.EnqPublish? && effect == Push(pc.buf)
            case PutBack => pc.PutStore? && effect == Replace(pc.buf)
            case NoReply => false
  {
    Returning(run, acts, t, i);
    LastPc(run[i].mem, run[i].RoleOf(t), run[i].pcs[t]);
  }

  lemma NoBufsExplained(run: seq<Ring>, acts: seq<Action>, t: Tid, i: nat, j: nat, call: Call, k: nat)
    requires IsRun(run, acts) && i < |acts| && acts[i] == Run(t) && Progress(run, acts, t, i, j, call, k)
    requires t in run[i + 1].pcs && run[i + 1].pcs[t] == Outside(NoBufs)
    ensures Explained(run, acts, t, j, i, call, NoBufs)
  {
    LastPcAt(run, acts, t, i);
    var f := HeadRechecked(run, acts, t, i);
    AfterInvocation(run, acts, t, j, f, i);
    assert IsFull(run[f].mem);
  }

  lemma EmptyExplained(run: seq<Ring>, acts: seq<Action>, t: Tid, i: nat, j: nat, call: Call, k: nat)
    requires IsRun(run, acts) && i < |acts| && acts[i] == Run(t) && Progress(run, acts, t, i, j, call, k)
    requires t in run[i + 1].pcs && run[i + 1].pcs[t] == Outside(Empty)
    ensures Explained(run, acts, t, j, i, call, Empty)
  {
    LastPcAt(run, acts, t, i);
    if run[i].pcs[t].PeekLoadHead? {
      var f := TailPeeked(run, acts, t, i);
      AfterInvocation(run, acts, t, j, f, i);
      assert IsEmpty(run[f].mem);
    } else {
      assert IsEmpty(run[i].mem);
    }
  }

  lemma GotExplained(run: seq<Ring>, acts: seq<Action>, t: Tid, i: nat, j: nat, call: Call, k: nat, b: Buf)
    requires IsRun(run, acts) && i < |acts| && acts[i] == Run(t) && Progress(run, acts, t, i, j, call, k)
    requires t in run[i + 1].pcs && run[i + 1].pcs[t] == Outside(Got(b))
    ensures Explained(run, acts, t, j, i, call, Got(b))
  {
    LastPcAt(run, acts, t, i);
    assert OnlyAt(run, acts, t, j, i, k);
    assert FrontIs(run[k].mem, b);
  }

  lemma FrontExplained(run: seq<Ring>, acts: seq<Action>, t: Tid, i: nat, j: nat, call: Call, k: nat, b: Buf)
    requires IsRun(run, acts) && i < |acts| && acts[i] == Run(t) && Progress(run, acts, t, i, j, call, k)
    requires t in run[i + 1].pcs && run[i + 1].pcs[t] == Outside(Front(b))
    ensures Explained(run, acts, t, j, i, call, Front(b))
  {
    LastPcAt(run, acts, t, i);
    ContentsPublished(run[i].mem);
  }

  lemma AdvancedExplained(run: seq<Ring>, acts: seq<Action>, t: Tid, i: nat, j: nat, call: Call, k: nat)
    requires IsRun(run, acts) && i < |acts| && acts[i] == Run(t) && Progress(run, acts, t, i, j, call, k)
    requires t in run[i + 1].pcs && run[i + 1].pcs[t] == Outside(Advanced)
    ensures Explained(run, acts, t, j, i, call, Advanced)
  {
    LastPcAt(run, acts, t, i);
    if run[i].pcs[t].AdvLoadTail? {
      assert IsEmpty(run[i].mem);
    } else {
      assert OnlyAt(run, acts, t, j, i, k);
    }
  }

  /** A call that changes the queue with its last access. */
  lemma LastAccessExplained(run: seq<Ring>, acts: seq<Action>, t: Tid, i: nat, j: nat, call: Call, k: nat)
    requires IsRun(run, acts) && i < |acts| && acts[i] == Run(t) && Progress(run, acts, t, i, j, call, k)
    requires t in run[i + 1].pcs && run[i + 1].pcs[t] in {Outside(Enqueued), Outside(PutBack)}
    ensures Explained(run, acts, t, j, i, call, run[i + 1].pcs[t].reply)
  {
    LastPcAt(run, acts, t, i);
    assert OnlyAt(run, acts, t, j, i, i);
  }

  /** Linearizability: a call that returns has changed the queue as its reply
      says, in one access between its invocation and its return, and nowhere
      else; a call that reports a full or an empty ring met such an instant. */
  lemma ReplyExplained(run: seq<Ring>, acts: seq<Action>, i: nat)
    requires IsRun(run, acts) && i < |acts| && acts[i].Run?
    requires acts[i].t in run[i + 1].pcs && run[i + 1].pcs[acts[i].t].Outside?
    ensures exists j: nat, call ::
              && j < i && acts[j] == Invoke(acts[i].t, call) && InCall(run, acts[i].t, j + 1, i)
              && Explained(run, acts, acts[i].t, j, i, call, run[i + 1].pcs[acts[i].t].reply)
  {
    var t := acts[i].t;
    Returning(run, acts, t, i);
    var j, call, k := CallSoFar(run, acts, t, i);
    match run[i + 1].pcs[t].reply
    case NoBufs => NoBufsExplained(run, acts, t, i, j, call, k);
    case Empty => EmptyExplained(run, acts, t, i, j, call, k);
    case Got(b) => GotExplained(run, acts, t, i, j, call, k, b);
    case Front(b) => FrontExplained(run, acts, t, i, j, call, k, b);
    case Advanced => AdvancedExplained(run, acts, t, i, j, call, k);
    case Enqueued => LastAccessExplained(run, acts, t, i, j, call, k);
    case PutBack => LastAccessExplained(run, acts, t, i, j, call, k);
    case NoReply =>
  }
}
