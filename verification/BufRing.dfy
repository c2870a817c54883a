/** The lock-free ring of include/sys/buf_ring.h as a transition system.

    Any number of threads run the ring's operations.  A step is one access to
    shared memory (a load, a store or a compare-and-set) together with the
    local computation that follows it, so every interleaving of the accesses is
    a run.  Head and tail counters are unbounded tickets here; module BufRing32
    relates them to the 32-bit counters of the source. */
module BufRing {
  import opened Modular

  type Tid = nat

  /** A buffer pointer; the ring never looks at it. */
  type Buf = nat

  datatype Call =
    | Enqueue(item: Buf)
    | DequeueMc
    | DequeueSc
    | AdvanceSc
    | PutbackSc(item: Buf)
    | Peek

  datatype Reply =
    | NoReply
    | Enqueued
    | NoBufs
    | Empty
    | Got(item: Buf)
    | Front(item: Buf)
    | Advanced
    | PutBack

  /** Where a thread is; the constructor says which access comes next. */
  datatype Pc =
    | Outside(reply: Reply)
      // buf_ring_enqueue
    | EnqLoadHead(buf: Buf)
    | EnqLoadTail(buf: Buf, head: nat)
    | EnqRecheckHead(buf: Buf, head: nat, tail: nat)
    | EnqRecheckTail(buf: Buf, head: nat, tail: nat)
    | EnqCas(buf: Buf, head: nat)
    | EnqStore(buf: Buf, head: nat)
    | EnqSpin(buf: Buf, head: nat)
    | EnqPublish(buf: Buf, head: nat)
      // buf_ring_dequeue_mc
    | DeqLoadHead
    | DeqLoadTail(head: nat)
    | DeqCas(head: nat)
    | DeqRead(head: nat)
    | DeqSpin(head: nat, buf: Buf)
    | DeqPublish(head: nat, buf: Buf)
      // buf_ring_dequeue_sc
    | ScLoadHead
    | ScLoadTail(head: nat)
    | ScStoreHead(head: nat)
    | ScRead(head: nat)
    | ScStoreTail(head: nat, buf: Buf)
      // buf_ring_advance_sc
    | AdvLoadHead
    | AdvLoadTail(head: nat)
    | AdvStoreHead(head: nat)
    | AdvStoreTail(head: nat)
      // buf_ring_putback_sc
    | PutLoadHead(buf: Buf)
    | PutStore(buf: Buf, head: nat)
      // buf_ring_peek
    | PeekLoadTail
    | PeekLoadHead(tail: nat)
    | PeekRead(head: nat)
  {
    predicate Producing() {
      || EnqLoadHead? || EnqLoadTail? || EnqRecheckHead? || EnqRecheckTail?
      || EnqCas? || EnqStore? || EnqSpin? || EnqPublish?
    }

    predicate Dequeuing() {
      || DeqLoadHead? || DeqLoadTail? || DeqCas? || DeqRead? || DeqSpin? || DeqPublish?
    }

    /** The next access of the single consumer moves a counter. */
    predicate Moving() { ScStoreHead? || ScStoreTail? || AdvStoreHead? || AdvStoreTail? }

    /** Between the compare-and-set that claims a producer ticket and its publication. */
    predicate OwnsProd() { EnqStore? || EnqSpin? || EnqPublish? }

    /** Between the compare-and-set that claims a consumer ticket and its release. */
    predicate OwnsCons() { DeqRead? || DeqSpin? || DeqPublish? }

    /** The single consumer moved the head over an element but not yet the tail. */
    predicate Halfway() { ScRead? || ScStoreTail? || AdvStoreTail? }
  }

  /** The shared memory of a ring.  `published` and `returned` are history
      variables, which no step reads: the buffers published, by producer
      ticket, and the buffers that `consTail` has passed, in that order. */
  datatype Mem = Mem(
    prodHead: nat, prodTail: nat, consHead: nat, consTail: nat, slots: seq<Buf>,
    published: seq<Buf>, returned: seq<Buf>)

  /** Who may consume: any thread through DequeueMc, or the one thread that
      holds the consumer lock, through the single-consumer operations. */
  datatype Consumers = Many | One(holder: Tid)

  datatype Role = AnyConsumer | Holder | ProducerOnly

  datatype Ring = Ring(mem: Mem, consumers: Consumers, pcs: map<Tid, Pc>) {
    function RoleOf(t: Tid): Role {
      if consumers == Many then AnyConsumer
      else if consumers == One(t) then Holder
      else ProducerOnly
    }
  }

  /** A thread enters a call, makes its next access, or leaves the shared memory
      alone. */
  datatype Action = Invoke(t: Tid, call: Call) | Run(t: Tid) | Pause(t: Tid) {
    /** Thread `u` stays where it is. */
    predicate Spares(u: Tid) { t != u || Pause? }
  }

  datatype Outcome = Outcome(mem: Mem, pc: Pc)

  function AccessEnqueue(m: Mem, pc: Pc): Outcome
    requires |m.slots| > 0 && pc.Producing()
  {
    match pc
    case EnqLoadHead(b) => Outcome(m, EnqLoadTail(b, m.prodHead))
    case EnqLoadTail(b, h) =>
      if m.consTail + |m.slots| - (h + 1) < 1 then Outcome(m, EnqRecheckHead(b, h, m.consTail))
      else Outcome(m, EnqCas(b, h))
    case EnqRecheckHead(b, h, tail) =>
      if h == m.prodHead then Outcome(m, EnqRecheckTail(b, h, tail))
      else Outcome(m, EnqCas(b, h))  // `continue` goes to the loop condition, not to the loads
    case EnqRecheckTail(b, h, tail) =>
      if tail == m.consTail then Outcome(m, Outside(NoBufs))
      else Outcome(m, EnqCas(b, h))  // likewise
    case EnqCas(b, h) =>
      if h == m.prodHead then Outcome(m.(prodHead := h + 1), EnqStore(b, h))
      else Outcome(m, EnqLoadHead(b))
    case EnqStore(b, h) =>
      Outcome(m.(slots := m.slots[SlotOf(h, |m.slots|) := b]), EnqSpin(b, h))
    case EnqSpin(b, h) =>
      Outcome(m, if m.prodTail == h then EnqPublish(b, h) else pc)
    case EnqPublish(b, h) =>
      Outcome(m.(prodTail := h + 1, published := m.published + [b]), Outside(Enqueued))
  }

  function AccessDequeue(m: Mem, pc: Pc): Outcome
    requires |m.slots| > 0 && pc.Dequeuing()
  {
    match pc
    case DeqLoadHead => Outcome(m, DeqLoadTail(m.consHead))
    case DeqLoadTail(h) => Outcome(m, if h == m.prodTail then Outside(Empty) else DeqCas(h))
    case DeqCas(h) =>
      if h == m.consHead then Outcome(m.(consHead := h + 1), DeqRead(h))
      else Outcome(m, DeqLoadHead)
    case DeqRead(h) => Outcome(m, DeqSpin(h, m.slots[SlotOf(h, |m.slots|)]))
    case DeqSpin(h, b) => Outcome(m, if m.consTail == h then DeqPublish(h, b) else pc)
    case DeqPublish(h, b) =>
      Outcome(m.(consTail := h + 1, returned := m.returned + [b]), Outside(Got(b)))
  }

  function AccessSingle(m: Mem, pc: Pc): Outcome
    requires |m.slots| > 0 && !pc.Producing() && !pc.Dequeuing() && !pc.Outside?
  {
    match pc
    case ScLoadHead => Outcome(m, ScLoadTail(m.consHead))
    case ScLoadTail(h) => Outcome(m, if h == m.prodTail then Outside(Empty) else ScStoreHead(h))
    case ScStoreHead(h) => Outcome(m.(consHead := h + 1), ScRead(h))
    case ScRead(h) => Outcome(m, ScStoreTail(h, m.slots[SlotOf(h, |m.slots|)]))
    case ScStoreTail(h, b) =>
      Outcome(m.(consTail := h + 1, returned := m.returned + [b]), Outside(Got(b)))
    case AdvLoadHead => Outcome(m, AdvLoadTail(m.consHead))
    case AdvLoadTail(h) => Outcome(m, if h == m.prodTail then Outside(Advanced) else AdvStoreHead(h))
    case AdvStoreHead(h) => Outcome(m.(consHead := h + 1), AdvStoreTail(h))
    case AdvStoreTail(h) =>
      Outcome(m.(consTail := h + 1, returned := m.returned + [m.slots[SlotOf(h, |m.slots|)]]),
              Outside(Advanced))
    case PutLoadHead(b) => Outcome(m, PutStore(b, m.consHead))
    case PutStore(b, h) =>
      Outcome(m.(slots := m.slots[SlotOf(h, |m.slots|) := b],
                 published := if h < |m.published| then m.published[h := b] else m.published),
              Outside(PutBack))
    case PeekLoadTail => Outcome(m, PeekLoadHead(m.prodTail))
    case PeekLoadHead(tail) =>
      Outcome(m, if m.consHead == tail then Outside(Empty) else PeekRead(m.consHead))
    case PeekRead(h) => Outcome(m, Outside(Front(m.slots[SlotOf(h, |m.slots|)])))
  }

  /** The next access of a thread at `pc`. */
  function Access(m: Mem, pc: Pc): Outcome
    requires |m.slots| > 0 && !pc.Outside?
  {
    if pc.Producing() then AccessEnqueue(m, pc)
    else if pc.Dequeuing() then AccessDequeue(m, pc)
    else AccessSingle(m, pc)
  }

  function Entry(call: Call): Pc {
    match call
    case Enqueue(b) => EnqLoadHead(b)
    case DequeueMc => DeqLoadHead
    case DequeueSc => ScLoadHead
    case AdvanceSc => AdvLoadHead
    case PutbackSc(b) => PutLoadHead(b)
    case Peek => PeekLoadTail
  }

  /** What the callers owe: consumers follow `consumers`, and a put-back needs
      an element at the front. */
  predicate MayCall(m: Mem, role: Role, call: Call) {
    match call
    case Enqueue(_) => true
    case DequeueMc => role == AnyConsumer
    case PutbackSc(_) => role == Holder && m.consHead < m.prodTail
    case _ => role == Holder
  }

  predicate Enabled(s: Ring, a: Action) {
    && |s.mem.slots| > 0
    && a.t in s.pcs
    && match a
       case Pause(_) => true
       case Run(t) => !s.pcs[t].Outside?
       case Invoke(t, call) => s.pcs[t].Outside? && MayCall(s.mem, s.RoleOf(t), call)
  }

  function Exec(s: Ring, a: Action): Ring
    requires Enabled(s, a)
  {
    match a
    case Pause(_) => s
    case Invoke(t, call) => s.(pcs := s.pcs[t := Entry(call)])
    case Run(t) =>
      var o := Access(s.mem, s.pcs[t]);
      s.(mem := o.mem, pcs := s.pcs[t := o.pc])
  }

  /** The ring buf_ring_alloc returns, before any call. */
  predicate Init(s: Ring) {
    && |s.mem.slots| > 0
    && s.mem.prodHead == s.mem.prodTail == s.mem.consHead == s.mem.consTail == 0
    && s.mem.published == s.mem.returned == []
    && (forall t <- s.pcs :: s.pcs[t] == Outside(NoReply))
  }

  /** A run: states joined by enabled actions, from an initial state. */
  ghost predicate IsRun(run: seq<Ring>, acts: seq<Action>) {
    && |run| == |acts| + 1
    && Init(run[0])
    && forall i :: 0 <= i < |acts| ==> StepAt(run, acts, i)
  }

  ghost predicate StepAt(run: seq<Ring>, acts: seq<Action>, i: nat)
    requires i < |acts| < |run|
  {
    Enabled(run[i], acts[i]) && run[i + 1] == Exec(run[i], acts[i])
  }

  /** The queue a ring holds: the tickets published and not yet claimed. */
  function Contents(m: Mem): seq<Buf>
    requires |m.slots| > 0 && m.consHead <= m.prodTail
  {
    seq(m.prodTail - m.consHead, i requires 0 <= i < m.prodTail - m.consHead =>
      m.slots[SlotOf(m.consHead + i, |m.slots|)])
  }
}
