/** The single-consumer operations, with any number of concurrent producers. */
module BufRingSingle {
  import opened Modular
  import opened BufRing
  import opened BufRingSafety
  import opened BufRingLinear

  /** Buffer `b` is at the front. */
  ghost predicate Sees(m: Mem, b: Buf) {
    m.consHead < |m.published| && m.published[m.consHead] == b
  }

  lemma SeesFront(m: Mem, b: Buf)
    requires MemOk(m)
    ensures Sees(m, b) <==> FrontIs(m, b)
  {
    ContentsPublished(m);
  }

  /** Producers do not disturb the front. */
  lemma OthersKeepFront(run: seq<Ring>, acts: seq<Action>, t: Tid, i: nat, b: Buf)
    requires IsRun(run, acts) && i < |acts| && acts[i].Spares(t) && run[i].consumers == One(t)
    requires Sees(run[i].mem, b)
    ensures Sees(run[i + 1].mem, b)
  {
    RunInv(run, acts, i);
    assert StepAt(run, acts, i);
    var s, u := run[i], acts[i].t;
    assert PcOk(s.mem, s.RoleOf(u), s.pcs[u]);
  }

  /** The consumer is past its invocation of `call` at `i`, in state `x`: the
      peeked buffer is still at the front, or it took exactly that one at `k`. */
  ghost predicate Taking(run: seq<Ring>, acts: seq<Action>, t: Tid, i: nat, x: nat, b: Buf, k: nat)
    requires x <= |acts| < |run|
  {
    && i < x && t in run[x].pcs && run[x].consumers == One(t)
    && var pc := run[x].pcs[t];
       && Consuming(pc)
       && if pc.Halfway() then
            && i < k < x && acts[k] == Run(t) && StepEffect(run, acts, k) == Pop && FrontIs(run[k].mem, b)
            && Quiet(run, acts, t, i + 1, k) && Quiet(run, acts, t, k + 1, x)
            && pc.head < |run[x].mem.published| && pc.head < run[x].mem.consHead
            && run[x].mem.published[pc.head] == b
          else Sees(run[x].mem, b) && Quiet(run, acts, t, i + 1, x)
  }

  lemma TakingOther(run: seq<Ring>, acts: seq<Action>, t: Tid, i: nat, x: nat, b: Buf, k: nat)
    requires IsRun(run, acts) && x < |acts| && acts[x].Spares(t) && Taking(run, acts, t, i, x, b, k)
    ensures Taking(run, acts, t, i, x + 1, b, k)
  {
    StepHistory(run, acts, x);
    ConsumersFixed(run, acts, x);
    ConsumersFixed(run, acts, x + 1);
    if !run[x].pcs[t].Halfway() {
      OthersKeepFront(run, acts, t, x, b);
    }
  }

  lemma TakingOwn(run: seq<Ring>, acts: seq<Action>, t: Tid, i: nat, x: nat, b: Buf, k: nat) returns (k': nat)
    requires IsRun(run, acts) && x < |acts| && acts[x] == Run(t) && Taking(run, acts, t, i, x, b, k)
    requires t in run[x + 1].pcs && !run[x + 1].pcs[t].Outside?
    ensures Taking(run, acts, t, i, x + 1, b, k')
  {
    StepHistory(run, acts, x);
    ConsumersFixed(run, acts, x);
    ConsumersFixed(run, acts, x + 1);
    TakingAccess(run, acts, t, x, b);
    k' := if run[x].pcs[t].Halfway() then k else x;
  }

  /** The consumer is in an advance or a dequeue. */
  predicate Consuming(pc: Pc) { Belongs(AdvanceSc, pc) || Belongs(DequeueSc, pc) }

  lemma ConsumingAccess(m: Mem, pc: Pc, b: Buf)
    requires MemOk(m) && PcOk(m, Holder, pc) && Consuming(pc) && !Access(m, pc).pc.Outside?
    ensures var o := Access(m, pc);
            && Consuming(o.pc) && (pc.Halfway() ==> o.pc.Halfway() && o.pc.head == pc.head && EffectOf(m, pc) == Stay)
            && (!pc.Halfway() && Sees(m, b) ==>
                  if o.pc.Halfway() then
                    EffectOf(m, pc) == Pop && o.pc.head < |o.mem.published| && o.pc.head < o.mem.consHead
                    && o.mem.published[o.pc.head] == b
                  else EffectOf(m, pc) == Stay && Sees(o.mem, b))
  {
  }

  /** One access of the consumer that sees `b` at the front. */
  lemma TakingAccess(run: seq<Ring>, acts: seq<Action>, t: Tid, x: nat, b: Buf)
    requires IsRun(run, acts) && x < |acts| && acts[x] == Run(t) && t in run[x].pcs && run[x].consumers == One(t)
    requires t in run[x + 1].pcs && !run[x + 1].pcs[t].Outside? && Consuming(run[x].pcs[t])
    ensures var pc, pc' := run[x].pcs[t], run[x + 1].pcs[t];
            && Consuming(pc')
            && (pc.Halfway() ==> pc'.Halfway() && pc'.head == pc.head && EffectOf(run[x].mem, pc) == Stay)
            && (!pc.Halfway() && Sees(run[x].mem, b) ==>
                 if pc'.Halfway() then
                   && EffectOf(run[x].mem, pc) == Pop && FrontIs(run[x].mem, b)
                   && pc'.head < |run[x + 1].mem.published| && pc'.head < run[x + 1].mem.consHead
                   && run[x + 1].mem.published[pc'.head] == b
                 else EffectOf(run[x].mem, pc) == Stay && Sees(run[x + 1].mem, b))
  {
    Returning(run, acts, t, x);
    assert StepAt(run, acts, x);
    assert run[x + 1].mem == Access(run[x].mem, run[x].pcs[t]).mem;
    SeesFront(run[x].mem, b);
    ConsumingAccess(run[x].mem, run[x].pcs[t], b);
  }

  lemma TakingStart(run: seq<Ring>, acts: seq<Action>, t: Tid, i: nat, b: Buf)
    requires IsRun(run, acts) && i < |acts| && t in run[i].pcs && run[i].pcs[t] == Outside(Front(b))
    requires acts[i] in {Invoke(t, AdvanceSc), Invoke(t, DequeueSc)}
    ensures Taking(run, acts, t, i, i + 1, b, 0)
  {
    RunInv(run, acts, i);
    assert StepAt(run, acts, i);
    assert PcOk(run[i].mem, run[i].RoleOf(t), run[i].pcs[t]);
  }

  lemma TakingStep(run: seq<Ring>, acts: seq<Action>, t: Tid, i: nat, x: nat, b: Buf, k: nat) returns (k': nat)
    requires IsRun(run, acts) && x < |acts| && Taking(run, acts, t, i, x, b, k)
    requires t in run[x].pcs && !run[x].pcs[t].Outside? && t in run[x + 1].pcs && !run[x + 1].pcs[t].Outside?
    ensures Taking(run, acts, t, i, x + 1, b, k')
  {
    assert StepAt(run, acts, x);
    if !acts[x].Spares(t) {
      k' := TakingOwn(run, acts, t, i, x, b, k);
    } else {
      TakingOther(run, acts, t, i, x, b, k);
      k' := k;
    }
  }

  lemma {:induction false} TakingHolds(run: seq<Ring>, acts: seq<Action>, t: Tid, i: nat, x: nat, b: Buf)
    returns (k: nat)
    requires IsRun(run, acts) && i < x < |run| && InCall(run, t, i + 1, x)
    requires acts[i] in {Invoke(t, AdvanceSc), Invoke(t, DequeueSc)} && t in run[i].pcs
    requires run[i].pcs[t] == Outside(Front(b))
    ensures Taking(run, acts, t, i, x, b, k)
  {
    if x == i + 1 {
      TakingStart(run, acts, t, i, b);
      k := 0;
    } else {
      k := TakingHolds(run, acts, t, i, x - 1, b);
      k := TakingStep(run, acts, t, i, x - 1, b, k);
    }
  }

  /** After a peek returned `b`, an advance takes exactly `b` off the queue,
      however many elements producers publish meanwhile; a dequeue in its place
      takes and returns the same `b`. */
  lemma PeekedIsTaken(run: seq<Ring>, acts: seq<Action>, t: Tid, i: nat, e: nat, b: Buf)
    requires IsRun(run, acts) && i < e < |acts| && InCall(run, t, i + 1, e)
    requires acts[i] in {Invoke(t, AdvanceSc), Invoke(t, DequeueSc)} && t in run[i].pcs
    requires run[i].pcs[t] == Outside(Front(b))
    requires acts[e] == Run(t) && t in run[e + 1].pcs && run[e + 1].pcs[t].Outside?
    ensures exists k: nat :: OnlyAt(run, acts, t, i, e, k) && StepEffect(run, acts, k) == Pop && FrontIs(run[k].mem, b)
    ensures acts[i] == Invoke(t, DequeueSc) ==> run[e + 1].pcs[t] == Outside(Got(b))
    ensures run[e + 1].mem.returned == run[e].mem.returned + [b]
  {
    var k := TakingHolds(run, acts, t, i, e, b);
    Returning(run, acts, t, e);
    assert StepAt(run, acts, e);
    assert OnlyAt(run, acts, t, i, e, k);
    SameCall(run, acts, t, i, e);
  }

  lemma SameCall(run: seq<Ring>, acts: seq<Action>, t: Tid, i: nat, x: nat)
    requires IsRun(run, acts) && i < x < |run| && InCall(run, t, i + 1, x)
    requires acts[i].Invoke? && acts[i].t == t
    ensures Belongs(acts[i].call, run[x].pcs[t])
  {
    if x == i + 1 {
      assert StepAt(run, acts, i);
    } else {
      SameCall(run, acts, t, i, x - 1);
      assert StepAt(run, acts, x - 1);
      if acts[x - 1] == Run(t) {
        BelongsNext(run[x - 1].mem, run[x - 1].pcs[t], acts[i].call);
      }
    }
  }

  // ------------------------------------------ with no producer in between

  predicate Single(pc: Pc) { !pc.Producing() && !pc.Dequeuing() }

  /** The outcome of at most `n` accesses in a row of a consumer at `pc`. */
  function Solo(m: Mem, pc: Pc, n: nat): Outcome
    requires |m.slots| > 0 && Single(pc)
    decreases n
  {
    if n == 0 || pc.Outside? then Outcome(m, pc)
    else
      var o := AccessSingle(m, pc);
      Solo(o.mem, o.pc, n - 1)
  }

  /** What an advance over the front does to the memory. */
  function Popped(m: Mem): Mem
    requires |m.slots| > 0
  {
    m.(consHead := m.consHead + 1, consTail := m.consHead + 1,
       returned := m.returned + [m.slots[SlotOf(m.consHead, |m.slots|)]])
  }

  /** In every state of every run in which the consumer is between calls: run
      without interruption, a dequeue leaves the memory that a peek and an
      advance leave, and returns what the peek returned. */
  lemma DequeueIsPeekAdvance(run: seq<Ring>, acts: seq<Action>, i: nat, t: Tid)
    requires IsRun(run, acts) && i < |run| && run[i].consumers == One(t) && t in run[i].pcs && run[i].pcs[t].Outside?
    ensures MemOk(run[i].mem) && DequeueLikePeekAdvance(run[i].mem)
  {
    RunInv(run, acts, i);
    assert PcOk(run[i].mem, run[i].RoleOf(t), run[i].pcs[t]);
    DequeueAlone(run[i].mem);
  }

  ghost predicate DequeueLikePeekAdvance(m: Mem)
    requires MemOk(m)
  {
    var peek := Solo(m, Entry(Peek), 3);
    |peek.mem.slots| > 0 &&
    var advance := Solo(peek.mem, Entry(AdvanceSc), 4);
    var dequeue := Solo(m, Entry(DequeueSc), 5);
    && peek.pc.Outside? && advance.pc == Outside(Advanced) && dequeue.pc.Outside?
    && dequeue.mem == advance.mem
    && (IsEmpty(m) ==> peek.pc == dequeue.pc == Outside(Empty) && dequeue.mem == m)
    && (!IsEmpty(m) ==> peek.pc == Outside(Front(Contents(m)[0])) && dequeue.pc == Outside(Got(Contents(m)[0])))
  }

  lemma DequeueAlone(m: Mem)
    requires MemOk(m) && m.consHead == m.consTail
    ensures DequeueLikePeekAdvance(m)
  {
    SoloPeek(m);
    SoloAdvance(m);
    SoloDequeue(m);
    ContentsPublished(m);
  }

  lemma SoloStep(m: Mem, pc: Pc, n: nat, o: Outcome)
    requires |m.slots| > 0 && Single(pc) && !pc.Outside? && o == AccessSingle(m, pc)
    ensures Solo(m, pc, n + 1) == Solo(o.mem, o.pc, n)
  {
  }

  lemma SoloPeek(m: Mem)
    requires MemOk(m) && m.consHead == m.consTail
    ensures Solo(m, Entry(Peek), 3) ==
            Outcome(m, Outside(if IsEmpty(m) then Empty else Front(m.slots[SlotOf(m.consHead, |m.slots|)])))
  {
    SoloStep(m, PeekLoadTail, 2, Outcome(m, PeekLoadHead(m.prodTail)));
    if IsEmpty(m) {
      SoloStep(m, PeekLoadHead(m.prodTail), 1, Outcome(m, Outside(Empty)));
    } else {
      var b := m.slots[SlotOf(m.consHead, |m.slots|)];
      SoloStep(m, PeekLoadHead(m.prodTail), 1, Outcome(m, PeekRead(m.consHead)));
      SoloStep(m, PeekRead(m.consHead), 0, Outcome(m, Outside(Front(b))));
    }
  }

  lemma SoloAdvanceOver(m: Mem)
    requires MemOk(m) && m.consHead == m.consTail && !IsEmpty(m)
    ensures Solo(m, AdvStoreHead(m.consHead), 2) == Outcome(Popped(m), Outside(Advanced))
  {
    var h := m.consHead;
    var m1 := m.(consHead := h + 1);
    assert AccessSingle(m1, AdvStoreTail(h)) == Outcome(Popped(m), Outside(Advanced));
    SoloStep(m, AdvStoreHead(h), 1, Outcome(m1, AdvStoreTail(h)));
    SoloStep(m1, AdvStoreTail(h), 0, Outcome(Popped(m), Outside(Advanced)));
  }

  lemma SoloAdvance(m: Mem)
    requires MemOk(m) && m.consHead == m.consTail
    ensures Solo(m, Entry(AdvanceSc), 4) ==
            Outcome(if IsEmpty(m) then m else Popped(m), Outside(Advanced))
  {
    var h := m.consHead;
    SoloStep(m, AdvLoadHead, 3, Outcome(m, AdvLoadTail(h)));
    if IsEmpty(m) {
      SoloStep(m, AdvLoadTail(h), 2, Outcome(m, Outside(Advanced)));
    } else {
      SoloStep(m, AdvLoadTail(h), 2, Outcome(m, AdvStoreHead(h)));
      SoloAdvanceOver(m);
    }
  }

  lemma SoloDequeueOver(m: Mem)
    requires MemOk(m) && m.consHead == m.consTail && !IsEmpty(m)
    ensures Solo(m, ScStoreHead(m.consHead), 3) ==
            Outcome(Popped(m), Outside(Got(m.slots[SlotOf(m.consHead, |m.slots|)])))
  {
    var h := m.consHead;
    var m1 := m.(consHead := h + 1);
    var b := m.slots[SlotOf(h, |m.slots|)];
    assert AccessSingle(m1, ScStoreTail(h, b)) == Outcome(Popped(m), Outside(Got(b)));
    SoloStep(m, ScStoreHead(h), 2, Outcome(m1, ScRead(h)));
    SoloStep(m1, ScRead(h), 1, Outcome(m1, ScStoreTail(h, b)));
    SoloStep(m1, ScStoreTail(h, b), 0, Outcome(Popped(m), Outside(Got(b))));
  }

  lemma SoloDequeue(m: Mem)
    requires MemOk(m) && m.consHead == m.consTail
    ensures Solo(m, Entry(DequeueSc), 5) ==
            if IsEmpty(m) then Outcome(m, Outside(Empty))
            else Outcome(Popped(m), Outside(Got(m.slots[SlotOf(m.consHead, |m.slots|)])))
  {
    var h := m.consHead;
    SoloStep(m, ScLoadHead, 4, Outcome(m, ScLoadTail(h)));
    if IsEmpty(m) {
      SoloStep(m, ScLoadTail(h), 3, Outcome(m, Outside(Empty)));
    } else {
      SoloStep(m, ScLoadTail(h), 3, Outcome(m, ScStoreHead(h)));
      SoloDequeueOver(m);
    }
  }
}
