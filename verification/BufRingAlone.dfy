/** Calls on a ring at rest, run without interruption: they end, with the reply
    that the ring calls for. */
module BufRingAlone {
  import opened Modular
  import opened BufRing
  import opened BufRingSafety
  import opened BufRingLinear

  // -------------------------------------------------------- every ticket has an owner

  predicate OwnsProdTicket(pc: Pc, h: nat) { pc.OwnsProd() && pc.head == h }

  predicate OwnsConsTicket(pc: Pc, h: nat) { (pc.OwnsCons() || pc.Halfway()) && pc.head == h }

  ghost predicate ProdOwned(s: Ring, h: nat) { exists t <- s.pcs :: OwnsProdTicket(s.pcs[t], h) }

  ghost predicate ConsOwned(s: Ring, h: nat) { exists t <- s.pcs :: OwnsConsTicket(s.pcs[t], h) }

  /** Each ticket claimed and not yet published or released is some thread's. */
  ghost predicate Owned(s: Ring) {
    && (forall h: nat | s.mem.prodTail <= h < s.mem.prodHead :: ProdOwned(s, h))
    && (forall h: nat | s.mem.consTail <= h < s.mem.consHead :: ConsOwned(s, h))
  }

  /** What an access does to the tickets of its own thread. */
  lemma ProdTickets(m: Mem, role: Role, pc: Pc, h: nat)
    requires MemOk(m) && PcOk(m, role, pc) && !pc.Outside?
    requires var o := Access(m, pc); o.mem.prodTail <= h < o.mem.prodHead
    ensures OwnsProdTicket(Access(m, pc).pc, h) || (m.prodTail <= h < m.prodHead && !OwnsProdTicket(pc, h))
  {
  }

  lemma ConsTickets(m: Mem, role: Role, pc: Pc, h: nat)
    requires MemOk(m) && PcOk(m, role, pc) && !pc.Outside?
    requires var o := Access(m, pc); o.mem.consTail <= h < o.mem.consHead
    ensures OwnsConsTicket(Access(m, pc).pc, h) || (m.consTail <= h < m.consHead && !OwnsConsTicket(pc, h))
  {
  }

  lemma RunKeepsOwned(s: Ring, t: Tid)
    requires Inv(s) && Owned(s) && Enabled(s, Run(t))
    ensures Owned(Exec(s, Run(t)))
  {
    var s', m, pc := Exec(s, Run(t)), s.mem, s.pcs[t];
    assert PcOk(m, s.RoleOf(t), pc);
    forall h: nat | s'.mem.prodTail <= h < s'.mem.prodHead ensures ProdOwned(s', h) {
      ProdTickets(m, s.RoleOf(t), pc, h);
      if OwnsProdTicket(s'.pcs[t], h) {
      } else {
        assert ProdOwned(s, h);
        var u :| u in s.pcs && OwnsProdTicket(s.pcs[u], h);
        assert s'.pcs[u] == s.pcs[u];
      }
    }
    forall h: nat | s'.mem.consTail <= h < s'.mem.consHead ensures ConsOwned(s', h) {
      ConsTickets(m, s.RoleOf(t), pc, h);
      if OwnsConsTicket(s'.pcs[t], h) {
      } else {
        assert ConsOwned(s, h);
        var u :| u in s.pcs && OwnsConsTicket(s.pcs[u], h);
        assert s'.pcs[u] == s.pcs[u];
      }
    }
  }

  lemma InvokeKeepsOwned(s: Ring, t: Tid, call: Call)
    requires Owned(s) && Enabled(s, Invoke(t, call))
    ensures Owned(Exec(s, Invoke(t, call)))
  {
    var s' := Exec(s, Invoke(t, call));
    forall h: nat | s.mem.prodTail <= h < s.mem.prodHead ensures ProdOwned(s', h) {
      assert ProdOwned(s, h);
      var u :| u in s.pcs && OwnsProdTicket(s.pcs[u], h);
      assert s'.pcs[u] == s.pcs[u];
    }
    forall h: nat | s.mem.consTail <= h < s.mem.consHead ensures ConsOwned(s', h) {
      assert ConsOwned(s, h);
      var u :| u in s.pcs && OwnsConsTicket(s.pcs[u], h);
      assert s'.pcs[u] == s.pcs[u];
    }
  }

  lemma {:induction false} RunOwned(run: seq<Ring>, acts: seq<Action>, i: nat)
    requires IsRun(run, acts) && i < |run|
    ensures Owned(run[i])
  {
    if i > 0 {
      RunOwned(run, acts, i - 1);
      RunInv(run, acts, i - 1);
      assert StepAt(run, acts, i - 1);
      match acts[i - 1]
      case Run(t) => RunKeepsOwned(run[i - 1], t);
      case Invoke(t, call) => InvokeKeepsOwned(run[i - 1], t, call);
      case Pause(_) =>
    }
  }

  ghost predicate Resting(s: Ring) { forall t <- s.pcs :: s.pcs[t].Outside? }

  /** With no call under way, heads and tails have met. */
  lemma AtRest(run: seq<Ring>, acts: seq<Action>, i: nat)
    requires IsRun(run, acts) && i < |run| && Resting(run[i])
    ensures run[i].mem.prodHead == run[i].mem.prodTail && run[i].mem.consHead == run[i].mem.consTail
  {
    RunInv(run, acts, i);
    RunOwned(run, acts, i);
    var s := run[i];
    assert !ProdOwned(s, s.mem.prodTail) && !ConsOwned(s, s.mem.consTail);
  }

  // ------------------------------------------------------------------ alone

  /** The outcome of at most `n` accesses in a row of a thread at `pc`. */
  function Alone(m: Mem, pc: Pc, n: nat): (o: Outcome)
    requires |m.slots| > 0
    ensures |o.mem.slots| > 0
    decreases n
  {
    if n == 0 || pc.Outside? then Outcome(m, pc)
    else
      var o := Access(m, pc);
      Alone(o.mem, o.pc, n - 1)
  }

  lemma AloneStep(m: Mem, pc: Pc, n: nat, o: Outcome)
    requires |m.slots| > 0 && !pc.Outside? && o == Access(m, pc)
    ensures |o.mem.slots| > 0 && Alone(m, pc, n + 1) == Alone(o.mem, o.pc, n)
  {
  }

  lemma FullAlone(m: Mem, b: Buf)
    requires MemOk(m) && IsFull(m)
    ensures Alone(m, EnqLoadHead(b), 6) == Outcome(m, Outside(NoBufs))
  {
    var h, c := m.prodHead, m.consTail;
    AloneStep(m, EnqLoadHead(b), 5, Outcome(m, EnqLoadTail(b, h)));
    AloneStep(m, EnqLoadTail(b, h), 4, Outcome(m, EnqRecheckHead(b, h, c)));
    AloneStep(m, EnqRecheckHead(b, h, c), 3, Outcome(m, EnqRecheckTail(b, h, c)));
    AloneStep(m, EnqRecheckTail(b, h, c), 2, Outcome(m, Outside(NoBufs)));
  }

  /** The memory after an enqueue. */
  function Pushed(m: Mem, b: Buf): Mem
    requires |m.slots| > 0
  {
    m.(prodHead := m.prodHead + 1, prodTail := m.prodHead + 1, published := m.published + [b],
       slots := m.slots[SlotOf(m.prodHead, |m.slots|) := b])
  }

  lemma PushAccesses(m: Mem, b: Buf)
    requires |m.slots| > 0 && m.prodHead + 1 < m.consTail + |m.slots|
    ensures var h := m.prodHead;
            && Access(m, EnqLoadHead(b)) == Outcome(m, EnqLoadTail(b, h))
            && Access(m, EnqLoadTail(b, h)) == Outcome(m, EnqCas(b, h))
            && Access(m, EnqCas(b, h)) == Outcome(m.(prodHead := h + 1), EnqStore(b, h))
  {
  }

  lemma PushClaims(m: Mem, b: Buf)
    requires MemOk(m) && !IsFull(m)
    ensures Alone(m, EnqLoadHead(b), 6) == Alone(m.(prodHead := m.prodHead + 1), EnqStore(b, m.prodHead), 3)
  {
    var h := m.prodHead;
    PushAccesses(m, b);
    AloneStep(m, EnqLoadHead(b), 5, Outcome(m, EnqLoadTail(b, h)));
    AloneStep(m, EnqLoadTail(b, h), 4, Outcome(m, EnqCas(b, h)));
    AloneStep(m, EnqCas(b, h), 3, Outcome(m.(prodHead := h + 1), EnqStore(b, h)));
  }

  lemma StoreAccesses(m: Mem, b: Buf)
    requires |m.slots| > 0 && m.prodHead == m.prodTail
    ensures var h := m.prodHead;
            var m1 := m.(prodHead := h + 1);
            var m2 := m1.(slots := m.slots[SlotOf(h, |m.slots|) := b]);
            && Access(m1, EnqStore(b, h)) == Outcome(m2, EnqSpin(b, h))
            && Access(m2, EnqSpin(b, h)) == Outcome(m2, EnqPublish(b, h))
            && Access(m2, EnqPublish(b, h)) == Outcome(Pushed(m, b), Outside(Enqueued))
  {
  }

  lemma PushAlone(m: Mem, b: Buf)
    requires MemOk(m) && !IsFull(m) && m.prodHead == m.prodTail
    ensures Alone(m, EnqLoadHead(b), 6) == Outcome(Pushed(m, b), Outside(Enqueued))
  {
    var h := m.prodHead;
    var m1 := m.(prodHead := h + 1);
    var m2 := m1.(slots := m.slots[SlotOf(h, |m.slots|) := b]);
    PushClaims(m, b);
    StoreAccesses(m, b);
    AloneStep(m1, EnqStore(b, h), 2, Outcome(m2, EnqSpin(b, h)));
    AloneStep(m2, EnqSpin(b, h), 1, Outcome(m2, EnqPublish(b, h)));
    AloneStep(m2, EnqPublish(b, h), 0, Outcome(Pushed(m, b), Outside(Enqueued)));
  }

  lemma PushedContents(m: Mem, b: Buf)
    requires MemOk(m) && !IsFull(m) && m.prodHead == m.prodTail
    ensures var m' := Pushed(m, b); m'.consHead <= m'.prodTail && Contents(m') == Contents(m) + [b]
  {
    StoreApart(m, m.prodHead, b);
    var m' := Pushed(m, b);
    assert forall i | 0 <= i < m.prodTail - m.consHead :: Contents(m')[i] == Contents(m)[i];
  }

  lemma EmptyAlone(m: Mem)
    requires MemOk(m) && IsEmpty(m)
    ensures Alone(m, DeqLoadHead, 6) == Outcome(m, Outside(Empty))
  {
    AloneStep(m, DeqLoadHead, 5, Outcome(m, DeqLoadTail(m.consHead)));
    AloneStep(m, DeqLoadTail(m.consHead), 4, Outcome(m, Outside(Empty)));
  }

  /** The memory after a dequeue. */
  function Taken(m: Mem): Mem
    requires |m.slots| > 0
  {
    m.(consHead := m.consHead + 1, consTail := m.consHead + 1,
       returned := m.returned + [m.slots[SlotOf(m.consHead, |m.slots|)]])
  }

  lemma ClaimAccesses(m: Mem)
    requires |m.slots| > 0 && !IsEmpty(m)
    ensures var h := m.consHead;
            && Access(m, DeqLoadHead) == Outcome(m, DeqLoadTail(h))
            && Access(m, DeqLoadTail(h)) == Outcome(m, DeqCas(h))
            && Access(m, DeqCas(h)) == Outcome(m.(consHead := h + 1), DeqRead(h))
  {
  }

  lemma TakeClaims(m: Mem)
    requires |m.slots| > 0 && !IsEmpty(m)
    ensures Alone(m, DeqLoadHead, 6) == Alone(m.(consHead := m.consHead + 1), DeqRead(m.consHead), 3)
  {
    var h := m.consHead;
    ClaimAccesses(m);
    AloneStep(m, DeqLoadHead, 5, Outcome(m, DeqLoadTail(h)));
    AloneStep(m, DeqLoadTail(h), 4, Outcome(m, DeqCas(h)));
    AloneStep(m, DeqCas(h), 3, Outcome(m.(consHead := h + 1), DeqRead(h)));
  }

  lemma TakeAccesses(m: Mem)
    requires |m.slots| > 0 && m.consHead == m.consTail
    ensures var h, b := m.consHead, m.slots[SlotOf(m.consHead, |m.slots|)];
            var m1 := m.(consHead := h + 1);
            && Access(m1, DeqRead(h)) == Outcome(m1, DeqSpin(h, b))
            && Access(m1, DeqSpin(h, b)) == Outcome(m1, DeqPublish(h, b))
            && Access(m1, DeqPublish(h, b)) == Outcome(Taken(m), Outside(Got(b)))
  {
  }

  lemma TakeAlone(m: Mem)
    requires MemOk(m) && !IsEmpty(m) && m.consHead == m.consTail
    ensures Alone(m, DeqLoadHead, 6) == Outcome(Taken(m), Outside(Got(m.slots[SlotOf(m.consHead, |m.slots|)])))
  {
    var h := m.consHead;
    var m1, b := m.(consHead := h + 1), m.slots[SlotOf(h, |m.slots|)];
    TakeClaims(m);
    TakeAccesses(m);
    AloneStep(m1, DeqRead(h), 2, Outcome(m1, DeqSpin(h, b)));
    AloneStep(m1, DeqSpin(h, b), 1, Outcome(m1, DeqPublish(h, b)));
    AloneStep(m1, DeqPublish(h, b), 0, Outcome(Taken(m), Outside(Got(b))));
  }

  lemma TakenContents(m: Mem)
    requires MemOk(m) && !IsEmpty(m)
    ensures var m' := Taken(m);
            && m'.consHead <= m'.prodTail && Contents(m) != [] && Contents(m') == Contents(m)[1..]
            && Contents(m)[0] == m.slots[SlotOf(m.consHead, |m.slots|)]
  {
  }

  // ------------------------------------------------------------- what follows

  /** On a ring at rest an enqueue ends: with ENOBUFS and no change if the ring is
      full, and else with the buffer at the end of the queue. */
  ghost predicate EnqueueEnds(m: Mem, b: Buf)
    requires MemOk(m)
  {
    var o := Alone(m, EnqLoadHead(b), 6);
    if IsFull(m) then o == Outcome(m, Outside(NoBufs))
    else o.pc == Outside(Enqueued) && o.mem.consHead <= o.mem.prodTail && Contents(o.mem) == Contents(m) + [b]
  }

  lemma EnqueueAlone(run: seq<Ring>, acts: seq<Action>, i: nat, b: Buf)
    requires IsRun(run, acts) && i < |run| && Resting(run[i])
    ensures MemOk(run[i].mem) && EnqueueEnds(run[i].mem, b)
  {
    var m := run[i].mem;
    RunInv(run, acts, i);
    AtRest(run, acts, i);
    if IsFull(m) {
      FullAlone(m, b);
    } else {
      PushAlone(m, b);
      PushedContents(m, b);
    }
  }

  /** A dequeue ends: with NULL and no change if the ring is empty, and else with
      the front of the queue, which it takes off. */
  ghost predicate DequeueEnds(m: Mem)
    requires MemOk(m)
  {
    var o := Alone(m, DeqLoadHead, 6);
    if IsEmpty(m) then o == Outcome(m, Outside(Empty))
    else
      && Contents(m) != [] && o.pc == Outside(Got(Contents(m)[0]))
      && o.mem.consHead <= o.mem.prodTail && Contents(o.mem) == Contents(m)[1..]
  }

  lemma DequeueAlone(run: seq<Ring>, acts: seq<Action>, i: nat)
    requires IsRun(run, acts) && i < |run| && Resting(run[i])
    ensures MemOk(run[i].mem) && DequeueEnds(run[i].mem)
  {
    var m := run[i].mem;
    RunInv(run, acts, i);
    AtRest(run, acts, i);
    if IsEmpty(m) {
      EmptyAlone(m);
    } else {
      TakeAlone(m);
      TakenContents(m);
    }
  }

  /** A put-back ends with the buffer at the front of the queue in place of the
      one that was there. */
  lemma PutbackAlone(run: seq<Ring>, acts: seq<Action>, i: nat, b: Buf)
    requires IsRun(run, acts) && i < |run| && Resting(run[i]) && !IsEmpty(run[i].mem)
    ensures MemOk(run[i].mem) && PutbackEnds(run[i].mem, b)
  {
    var m := run[i].mem;
    RunInv(run, acts, i);
    var h := m.consHead;
    var m1 := m.(slots := m.slots[SlotOf(h, |m.slots|) := b], published := m.published[h := b]);
    AloneStep(m, PutLoadHead(b), 1, Outcome(m, PutStore(b, h)));
    AloneStep(m, PutStore(b, h), 0, Outcome(m1, Outside(PutBack)));
    ReplacedContents(m, b);
  }

  ghost predicate PutbackEnds(m: Mem, b: Buf)
    requires MemOk(m)
  {
    var o := Alone(m, PutLoadHead(b), 2);
    && o.pc == Outside(PutBack) && o.mem.consHead <= o.mem.prodTail
    && Contents(m) != [] && Contents(o.mem) == Contents(m)[0 := b]
  }

  lemma ReplacedContents(m: Mem, b: Buf)
    requires MemOk(m) && !IsEmpty(m)
    ensures var h := m.consHead;
            var m1 := m.(slots := m.slots[SlotOf(h, |m.slots|) := b], published := m.published[h := b]);
            Contents(m) != [] && Contents(m1) == Contents(m)[0 := b]
  {
    StoreApart(m, m.consHead, b);
  }
}
