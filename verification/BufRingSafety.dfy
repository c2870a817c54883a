/** The invariant of the ring holds in every reachable state, and what follows from it. */
module BufRingSafety {
  import opened Modular
  import opened BufRing

  ghost predicate CountersOk(m: Mem) {
    && |m.slots| > 0
    && m.consTail <= m.consHead <= m.prodTail <= m.prodHead <= m.consTail + |m.slots| - 1
  }

  /** Every published ticket that `consTail` has not passed is still in its
      slot, and what left the ring is what was published, in ticket order. */
  ghost predicate MemOk(m: Mem) {
    && CountersOk(m)
    && |m.published| == m.prodTail
    && m.returned == m.published[..m.consTail]
    && forall i :: m.consTail <= i < m.prodTail ==> m.slots[SlotOf(i, |m.slots|)] == m.published[i]
  }

  ghost predicate EnqueueOk(m: Mem, pc: Pc)
    requires |m.slots| > 0 && pc.Producing()
  {
    match pc
    case EnqLoadHead(_) => true
    case EnqLoadTail(_, h) => h <= m.prodHead && h <= m.consTail + |m.slots| - 1
    case EnqRecheckHead(_, h, tail) =>
      h <= m.prodHead && tail <= m.consTail && h == tail + |m.slots| - 1
    case EnqRecheckTail(_, h, tail) =>
      h <= m.prodHead && tail <= m.consTail && h == tail + |m.slots| - 1
    case EnqCas(_, h) =>
      // there is a free slot, or the compare-and-set is bound to fail
      h <= m.prodHead && (h < m.prodHead || h <= m.consTail + |m.slots| - 2)
    case EnqStore(_, h) => m.prodTail <= h < m.prodHead
    case EnqSpin(b, h) => m.prodTail <= h < m.prodHead && m.slots[SlotOf(h, |m.slots|)] == b
    case EnqPublish(b, h) => m.prodTail == h < m.prodHead && m.slots[SlotOf(h, |m.slots|)] == b
  }

  ghost predicate DequeueOk(m: Mem, pc: Pc)
    requires pc.Dequeuing()
  {
    match pc
    case DeqLoadHead => true
    case DeqLoadTail(h) => h <= m.consHead
    case DeqCas(h) => h <= m.consHead && h < m.prodTail
    case DeqRead(h) => m.consTail <= h < m.consHead
    case DeqSpin(h, b) => m.consTail <= h < m.consHead && h < |m.published| && b == m.published[h]
    case DeqPublish(h, b) => m.consTail == h < m.consHead && h < |m.published| && b == m.published[h]
  }

  ghost predicate SingleOk(m: Mem, pc: Pc)
    requires !pc.Producing() && !pc.Dequeuing()
  {
    match pc
    case ScLoadTail(h) => h == m.consHead
    case ScStoreHead(h) => h == m.consHead < m.prodTail
    case ScRead(h) => h == m.consTail
    case ScStoreTail(h, b) => h == m.consTail && h < |m.published| && b == m.published[h]
    case AdvLoadTail(h) => h == m.consHead
    case AdvStoreHead(h) => h == m.consHead < m.prodTail
    case AdvStoreTail(h) => h == m.consTail
    case PutLoadHead(_) => m.consHead < m.prodTail
    case PutStore(_, h) => h == m.consHead < m.prodTail
    case PeekLoadHead(tail) => m.consHead <= tail <= m.prodTail
    case PeekRead(h) => h == m.consHead < m.prodTail
    case Outside(Front(b)) => m.consHead < |m.published| && b == m.published[m.consHead]
    case _ => true
  }

  /** What a thread at `pc` knows about the memory. */
  ghost predicate PcOk(m: Mem, role: Role, pc: Pc)
    requires |m.slots| > 0
  {
    && (role == Holder ==> m.consHead == m.consTail + if pc.Halfway() then 1 else 0)
    && if pc.Producing() then EnqueueOk(m, pc)
       else if pc.Dequeuing() then role == AnyConsumer && DequeueOk(m, pc)
       else (pc.Outside? && !pc.reply.Front?) || (role == Holder && SingleOk(m, pc))
  }

  /** Two threads never own the same ticket. */
  predicate Apart(p: Pc, q: Pc) {
    && (p.OwnsProd() && q.OwnsProd() ==> p.head != q.head)
    && (p.OwnsCons() && q.OwnsCons() ==> p.head != q.head)
  }

  ghost predicate Inv(s: Ring) {
    && MemOk(s.mem)
    && (forall t <- s.pcs :: PcOk(s.mem, s.RoleOf(t), s.pcs[t]))
    && (forall t <- s.pcs, u <- s.pcs :: t != u ==> Apart(s.pcs[t], s.pcs[u]))
  }

  // ------------------------------------------------------------------- slots

  /** A store into the slot of one ticket leaves the slots of the others alone. */
  lemma StoreApart(m: Mem, h: nat, b: Buf)
    requires CountersOk(m) && m.consTail <= h < m.consTail + |m.slots|
    ensures forall i :: m.consTail <= i < m.consTail + |m.slots| && i != h ==>
              m.slots[SlotOf(h, |m.slots|) := b][SlotOf(i, |m.slots|)] == m.slots[SlotOf(i, |m.slots|)]
  {
    forall i | m.consTail <= i < m.consTail + |m.slots| && i != h
      ensures m.slots[SlotOf(h, |m.slots|) := b][SlotOf(i, |m.slots|)] == m.slots[SlotOf(i, |m.slots|)]
    {
      if h < i { SlotsApart(h, i, |m.slots|); } else { SlotsApart(i, h, |m.slots|); }
    }
  }

  // -------------------------------------------- an access keeps the invariant

  lemma StoreOwn(m: Mem, role: Role, pc: Pc)
    requires MemOk(m) && PcOk(m, role, pc) && pc.EnqStore?
    ensures var o := AccessEnqueue(m, pc); MemOk(o.mem) && PcOk(o.mem, role, o.pc)
  {
    StoreApart(m, pc.head, pc.buf);
  }

  lemma PublishOwn(m: Mem, role: Role, pc: Pc)
    requires MemOk(m) && PcOk(m, role, pc) && pc.EnqPublish?
    ensures var o := AccessEnqueue(m, pc); MemOk(o.mem) && PcOk(o.mem, role, o.pc)
  {
    var p := m.published + [pc.buf];
    assert p[..m.consTail] == m.published[..m.consTail] && p[m.prodTail] == pc.buf;
  }

  lemma EnqueueOwn(m: Mem, role: Role, pc: Pc)
    requires MemOk(m) && PcOk(m, role, pc) && pc.Producing()
    ensures var o := AccessEnqueue(m, pc); MemOk(o.mem) && PcOk(o.mem, role, o.pc)
  {
    if pc.EnqStore? {
      StoreOwn(m, role, pc);
    } else if pc.EnqPublish? {
      PublishOwn(m, role, pc);
    }
  }

  lemma DequeueOwn(m: Mem, role: Role, pc: Pc)
    requires MemOk(m) && PcOk(m, role, pc) && pc.Dequeuing()
    ensures var o := AccessDequeue(m, pc); MemOk(o.mem) && PcOk(o.mem, role, o.pc)
  {
  }

  lemma SingleLoadOwn(m: Mem, role: Role, pc: Pc)
    requires MemOk(m) && PcOk(m, role, pc)
    requires !pc.Producing() && !pc.Dequeuing() && !pc.Outside? && !pc.Moving() && !pc.PutStore?
    ensures var o := AccessSingle(m, pc); o.mem == m && PcOk(m, role, o.pc)
  {
  }

  lemma SingleHeadOwn(m: Mem, role: Role, pc: Pc)
    requires MemOk(m) && PcOk(m, role, pc) && (pc.ScStoreHead? || pc.AdvStoreHead?)
    ensures var o := AccessSingle(m, pc); MemOk(o.mem) && PcOk(o.mem, role, o.pc)
  {
  }

  lemma SingleTailOwn(m: Mem, role: Role, pc: Pc)
    requires MemOk(m) && PcOk(m, role, pc) && (pc.ScStoreTail? || pc.AdvStoreTail?)
    ensures var o := AccessSingle(m, pc); MemOk(o.mem) && PcOk(o.mem, role, o.pc)
  {
    assert m.published[..m.consTail] + [m.published[m.consTail]] == m.published[..m.consTail + 1];
  }

  lemma SingleMoveOwn(m: Mem, role: Role, pc: Pc)
    requires MemOk(m) && PcOk(m, role, pc) && pc.Moving()
    ensures var o := AccessSingle(m, pc); MemOk(o.mem) && PcOk(o.mem, role, o.pc)
  {
    if pc.ScStoreHead? || pc.AdvStoreHead? { SingleHeadOwn(m, role, pc); } else { SingleTailOwn(m, role, pc); }
  }

  lemma PutStoreOwn(m: Mem, role: Role, pc: Pc)
    requires MemOk(m) && PcOk(m, role, pc) && pc.PutStore?
    ensures var o := AccessSingle(m, pc); MemOk(o.mem) && PcOk(o.mem, role, o.pc)
  {
    StoreApart(m, pc.head, pc.buf);
  }

  lemma SingleOwn(m: Mem, role: Role, pc: Pc)
    requires MemOk(m) && PcOk(m, role, pc)
    requires !pc.Producing() && !pc.Dequeuing() && !pc.Outside?
    ensures var o := AccessSingle(m, pc); MemOk(o.mem) && PcOk(o.mem, role, o.pc)
  {
    if pc.PutStore? {
      PutStoreOwn(m, role, pc);
    } else if pc.Moving() {
      SingleMoveOwn(m, role, pc);
    } else {
      SingleLoadOwn(m, role, pc);
    }
  }

  // ------------------------- an access of one thread disturbs no other thread

  /** Only a thread's own role lets it move the consumer counters. */
  predicate RolesFit(r: Role, q: Role) {
    (r == AnyConsumer <==> q == AnyConsumer) && !(r == Holder && q == Holder)
  }

  lemma EnqStoreOther(m: Mem, role: Role, pc: Pc, role2: Role, pc2: Pc)
    requires MemOk(m) && PcOk(m, role, pc) && pc.EnqStore?
    requires PcOk(m, role2, pc2) && Apart(pc, pc2) && RolesFit(role, role2)
    ensures var o := AccessEnqueue(m, pc); PcOk(o.mem, role2, pc2) && Apart(o.pc, pc2)
  {
    StoreApart(m, pc.head, pc.buf);
  }

  lemma EnqCasOther(m: Mem, role: Role, pc: Pc, role2: Role, pc2: Pc)
    requires MemOk(m) && PcOk(m, role, pc) && pc.EnqCas?
    requires PcOk(m, role2, pc2) && Apart(pc, pc2) && RolesFit(role, role2)
    ensures var o := AccessEnqueue(m, pc); PcOk(o.mem, role2, pc2) && Apart(o.pc, pc2)
  {
    if pc2.Producing() { EnqCasProducer(m, pc, pc2); }
  }

  lemma EnqCasProducer(m: Mem, pc: Pc, pc2: Pc)
    requires CountersOk(m) && pc.EnqCas? && pc2.Producing() && EnqueueOk(m, pc2)
    ensures var o := AccessEnqueue(m, pc); EnqueueOk(o.mem, pc2) && Apart(o.pc, pc2)
  {
  }

  lemma EnqPublishOther(m: Mem, role: Role, pc: Pc, role2: Role, pc2: Pc)
    requires MemOk(m) && PcOk(m, role, pc) && pc.EnqPublish?
    requires PcOk(m, role2, pc2) && Apart(pc, pc2) && RolesFit(role, role2)
    ensures var o := AccessEnqueue(m, pc); PcOk(o.mem, role2, pc2) && Apart(o.pc, pc2)
  {
    if pc2.Producing() { EnqPublishProducer(m, pc, pc2); }
  }

  lemma EnqPublishProducer(m: Mem, pc: Pc, pc2: Pc)
    requires CountersOk(m) && pc.EnqPublish? && EnqueueOk(m, pc)
    requires pc2.Producing() && EnqueueOk(m, pc2) && Apart(pc, pc2)
    ensures var o := AccessEnqueue(m, pc); EnqueueOk(o.mem, pc2) && Apart(o.pc, pc2)
  {
  }

  /** The other accesses of an enqueue leave memory and tickets alone. */
  lemma EnqLoads(m: Mem, pc: Pc)
    requires |m.slots| > 0 && pc.Producing() && !pc.EnqStore? && !pc.EnqCas? && !pc.EnqPublish?
    ensures var o := AccessEnqueue(m, pc);
            o.mem == m && !o.pc.OwnsCons() && (o.pc.OwnsProd() ==> pc.OwnsProd() && o.pc.head == pc.head)
  {
  }

  lemma EnqueueOther(m: Mem, role: Role, pc: Pc, role2: Role, pc2: Pc)
    requires MemOk(m) && PcOk(m, role, pc) && pc.Producing()
    requires PcOk(m, role2, pc2) && Apart(pc, pc2) && RolesFit(role, role2)
    ensures var o := AccessEnqueue(m, pc); PcOk(o.mem, role2, pc2) && Apart(o.pc, pc2)
  {
    if pc.EnqStore? {
      EnqStoreOther(m, role, pc, role2, pc2);
    } else if pc.EnqCas? {
      EnqCasOther(m, role, pc, role2, pc2);
    } else if pc.EnqPublish? {
      EnqPublishOther(m, role, pc, role2, pc2);
    } else {
      EnqLoads(m, pc);
    }
  }

  lemma DeqCasOther(m: Mem, role: Role, pc: Pc, role2: Role, pc2: Pc)
    requires MemOk(m) && PcOk(m, role, pc) && pc.DeqCas?
    requires PcOk(m, role2, pc2) && Apart(pc, pc2) && RolesFit(role, role2)
    ensures var o := AccessDequeue(m, pc); PcOk(o.mem, role2, pc2) && Apart(o.pc, pc2)
  {
  }

  lemma DeqPublishOther(m: Mem, role: Role, pc: Pc, role2: Role, pc2: Pc)
    requires MemOk(m) && PcOk(m, role, pc) && pc.DeqPublish?
    requires PcOk(m, role2, pc2) && Apart(pc, pc2) && RolesFit(role, role2)
    ensures var o := AccessDequeue(m, pc); PcOk(o.mem, role2, pc2) && Apart(o.pc, pc2)
  {
  }

  lemma DeqLoads(m: Mem, pc: Pc)
    requires |m.slots| > 0 && pc.Dequeuing() && !pc.DeqCas? && !pc.DeqPublish?
    ensures var o := AccessDequeue(m, pc);
            o.mem == m && !o.pc.OwnsProd() && (o.pc.OwnsCons() ==> pc.OwnsCons() && o.pc.head == pc.head)
  {
  }

  lemma DequeueOther(m: Mem, role: Role, pc: Pc, role2: Role, pc2: Pc)
    requires MemOk(m) && PcOk(m, role, pc) && pc.Dequeuing()
    requires PcOk(m, role2, pc2) && Apart(pc, pc2) && RolesFit(role, role2)
    ensures var o := AccessDequeue(m, pc); PcOk(o.mem, role2, pc2) && Apart(o.pc, pc2)
  {
    if pc.DeqCas? {
      DeqCasOther(m, role, pc, role2, pc2);
    } else if pc.DeqPublish? {
      DeqPublishOther(m, role, pc, role2, pc2);
    } else {
      DeqLoads(m, pc);
    }
  }

  lemma SingleHeadOther(m: Mem, role: Role, pc: Pc, role2: Role, pc2: Pc)
    requires MemOk(m) && PcOk(m, role, pc) && (pc.ScStoreHead? || pc.AdvStoreHead?)
    requires PcOk(m, role2, pc2) && Apart(pc, pc2) && RolesFit(role, role2)
    ensures var o := AccessSingle(m, pc); PcOk(o.mem, role2, pc2) && Apart(o.pc, pc2)
  {
  }

  lemma SingleMoveOther(m: Mem, role: Role, pc: Pc, role2: Role, pc2: Pc)
    requires MemOk(m) && PcOk(m, role, pc) && pc.Moving()
    requires PcOk(m, role2, pc2) && Apart(pc, pc2) && RolesFit(role, role2)
    ensures var o := AccessSingle(m, pc); PcOk(o.mem, role2, pc2) && Apart(o.pc, pc2)
  {
    if pc.ScStoreHead? || pc.AdvStoreHead? { SingleHeadOther(m, role, pc, role2, pc2); }
  }

  lemma PutStoreOther(m: Mem, role: Role, pc: Pc, role2: Role, pc2: Pc)
    requires MemOk(m) && PcOk(m, role, pc) && pc.PutStore?
    requires PcOk(m, role2, pc2) && Apart(pc, pc2) && RolesFit(role, role2)
    ensures var o := AccessSingle(m, pc); PcOk(o.mem, role2, pc2) && Apart(o.pc, pc2)
  {
    StoreApart(m, pc.head, pc.buf);
  }

  lemma SingleOther(m: Mem, role: Role, pc: Pc, role2: Role, pc2: Pc)
    requires MemOk(m) && PcOk(m, role, pc)
    requires !pc.Producing() && !pc.Dequeuing() && !pc.Outside?
    requires PcOk(m, role2, pc2) && Apart(pc, pc2) && RolesFit(role, role2)
    ensures var o := AccessSingle(m, pc); PcOk(o.mem, role2, pc2) && Apart(o.pc, pc2)
  {
    if pc.PutStore? {
      PutStoreOther(m, role, pc, role2, pc2);
    } else if pc.Moving() {
      SingleMoveOther(m, role, pc, role2, pc2);
    } else {
      SingleLoadOwn(m, role, pc);
    }
  }

  // ------------------------------------------------------------- every state

  lemma AccessOwn(m: Mem, role: Role, pc: Pc)
    requires MemOk(m) && PcOk(m, role, pc) && !pc.Outside?
    ensures var o := Access(m, pc); MemOk(o.mem) && PcOk(o.mem, role, o.pc)
  {
    if pc.Producing() {
      EnqueueOwn(m, role, pc);
    } else if pc.Dequeuing() {
      DequeueOwn(m, role, pc);
    } else {
      SingleOwn(m, role, pc);
    }
  }

  lemma AccessOther(m: Mem, role: Role, pc: Pc, role2: Role, pc2: Pc)
    requires MemOk(m) && PcOk(m, role, pc) && !pc.Outside?
    requires PcOk(m, role2, pc2) && Apart(pc, pc2) && RolesFit(role, role2)
    ensures var o := Access(m, pc); PcOk(o.mem, role2, pc2) && Apart(o.pc, pc2)
  {
    if pc.Producing() {
      EnqueueOther(m, role, pc, role2, pc2);
    } else if pc.Dequeuing() {
      DequeueOther(m, role, pc, role2, pc2);
    } else {
      SingleOther(m, role, pc, role2, pc2);
    }
  }

  lemma Regroup(s: Ring, t: Tid, o: Outcome)
    requires Inv(s) && t in s.pcs
    requires MemOk(o.mem) && PcOk(o.mem, s.RoleOf(t), o.pc)
    requires forall u <- s.pcs :: u != t ==> PcOk(o.mem, s.RoleOf(u), s.pcs[u]) && Apart(o.pc, s.pcs[u])
    ensures Inv(s.(mem := o.mem, pcs := s.pcs[t := o.pc]))
  {
    var s' := s.(mem := o.mem, pcs := s.pcs[t := o.pc]);
    assert forall u :: s'.RoleOf(u) == s.RoleOf(u);
    forall u <- s'.pcs
      ensures PcOk(s'.mem, s'.RoleOf(u), s'.pcs[u])
    {
    }
  }

  lemma EntryOwn(m: Mem, role: Role, pc: Pc, call: Call)
    requires MemOk(m) && PcOk(m, role, pc) && pc.Outside? && MayCall(m, role, call)
    ensures PcOk(m, role, Entry(call))
    ensures forall pc2 :: Apart(Entry(call), pc2)
  {
  }

  /** Every enabled action keeps the invariant. */
  lemma StepKeepsInv(s: Ring, a: Action)
    requires Inv(s) && Enabled(s, a)
    ensures Inv(Exec(s, a))
  {
    var t := a.t;
    match a
    case Pause(_) =>
    case Run(_) =>
      var o := Access(s.mem, s.pcs[t]);
      AccessOwn(s.mem, s.RoleOf(t), s.pcs[t]);
      forall u <- s.pcs | u != t
        ensures PcOk(o.mem, s.RoleOf(u), s.pcs[u]) && Apart(o.pc, s.pcs[u])
      {
        AccessOther(s.mem, s.RoleOf(t), s.pcs[t], s.RoleOf(u), s.pcs[u]);
      }
      Regroup(s, t, o);
    case Invoke(_, call) =>
      EntryOwn(s.mem, s.RoleOf(t), s.pcs[t], call);
      Regroup(s, t, Outcome(s.mem, Entry(call)));
  }

  lemma {:induction false} RunInv(run: seq<Ring>, acts: seq<Action>, i: nat)
    requires IsRun(run, acts) && i < |run|
    ensures Inv(run[i])
  {
    if i > 0 {
      RunInv(run, acts, i - 1);
      assert StepAt(run, acts, i - 1);
      StepKeepsInv(run[i - 1], acts[i - 1]);
    }
  }

  /** In every state of every run the four counters are in order and at most
      `size - 1` slots are claimed. */
  lemma CountersInOrder(run: seq<Ring>, acts: seq<Action>, i: nat)
    requires IsRun(run, acts) && i < |run|
    ensures var m := run[i].mem;
            m.consTail <= m.consHead <= m.prodTail <= m.prodHead <= m.consTail + |m.slots| - 1
  {
    RunInv(run, acts, i);
  }

  // ---------------------------------------------------- first in, first out

  /** The buffers of the enqueues that completed in the first `i` actions, in
      the order of their publication, which is the order of producer tickets. */
  function EnqueuedBy(run: seq<Ring>, acts: seq<Action>, i: nat): seq<Buf>
    requires i <= |acts| <= |run|
  {
    if i == 0 then []
    else
      var a := acts[i - 1];
      var pcs := run[i - 1].pcs;
      EnqueuedBy(run, acts, i - 1) +
      if a.Run? && a.t in pcs && pcs[a.t].EnqPublish? then [pcs[a.t].buf] else []
  }

  /** The buffers that dequeues returned in the first `i` actions, in the order
      in which they released their slots, which is the order of consumer tickets. */
  function DequeuedBy(run: seq<Ring>, acts: seq<Action>, i: nat): seq<Buf>
    requires i <= |acts| <= |run|
  {
    if i == 0 then []
    else
      var a := acts[i - 1];
      var pcs := run[i - 1].pcs;
      DequeuedBy(run, acts, i - 1) +
      if a.Run? && a.t in pcs && pcs[a.t].DeqPublish? then [pcs[a.t].buf] else []
  }

  lemma ConsumersFixed(run: seq<Ring>, acts: seq<Action>, i: nat)
    requires IsRun(run, acts) && i < |run|
    ensures run[i].consumers == run[0].consumers
  {
    if i > 0 {
      ConsumersFixed(run, acts, i - 1);
      assert StepAt(run, acts, i - 1);
    }
  }

  lemma {:induction false} HistoriesMatch(run: seq<Ring>, acts: seq<Action>, i: nat)
    requires IsRun(run, acts) && i <= |acts| && run[0].consumers == Many
    ensures run[i].mem.published == EnqueuedBy(run, acts, i)
    ensures run[i].mem.returned == DequeuedBy(run, acts, i)
  {
    if i > 0 {
      HistoriesMatch(run, acts, i - 1);
      RunInv(run, acts, i - 1);
      ConsumersFixed(run, acts, i - 1);
      var s, a := run[i - 1], acts[i - 1];
      assert StepAt(run, acts, i - 1);
      assert PcOk(s.mem, s.RoleOf(a.t), s.pcs[a.t]);
    }
  }

  /** Whatever the interleaving, what dequeues return is a prefix of what
      enqueues published: nothing is lost, duplicated, reordered, overwritten
      before it is read or read before it is written. */
  lemma FirstInFirstOut(run: seq<Ring>, acts: seq<Action>, i: nat)
    requires IsRun(run, acts) && i <= |acts| && run[0].consumers == Many
    ensures DequeuedBy(run, acts, i) <= EnqueuedBy(run, acts, i)
    ensures |DequeuedBy(run, acts, i)| == run[i].mem.consTail
    ensures |EnqueuedBy(run, acts, i)| == run[i].mem.prodTail
  {
    HistoriesMatch(run, acts, i);
    RunInv(run, acts, i);
  }
}
