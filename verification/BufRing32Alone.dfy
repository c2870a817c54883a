/** Calls on a 32-bit ring at rest, run without interruption. */
module BufRing32Alone {
  import opened BufRing
  import opened BufRingSafety
  import opened BufRingAlone
  import opened BufRing32
  import opened BufRing32Runs

  function Alone32(m: Mem32, pc: Pc, n: nat): (o: Outcome32)
    requires m.Size() > 0
    ensures o.mem.Size() > 0
    decreases n
  {
    if n == 0 || pc.Outside? then Outcome32(m, pc)
    else
      var o := Access32(m, pc);
      Alone32(o.mem, o.pc, n - 1)
  }

  /** The snapshots of a thread that runs alone are the counters themselves. */
  predicate Current(m: Mem, pc: Pc) {
    match pc
    case EnqLoadTail(_, h) => h == m.prodHead
    case EnqRecheckHead(_, h, tail) => h == m.prodHead && tail == m.consTail
    case EnqRecheckTail(_, h, tail) => h == m.prodHead && tail == m.consTail
    case EnqCas(_, h) => h == m.prodHead
    case DeqLoadTail(h) => h == m.consHead
    case DeqCas(h) => h == m.consHead
    case _ => true
  }

  lemma CurrentIsFresh(m: Mem, pc: Pc)
    requires MemOk(m) && PowerOfTwo(|m.slots|) && Current(m, pc)
    ensures Fresh(m, pc) && !Lagging(m, WrapPc(pc), pc)
  {
    SizeFits(|m.slots|);
  }

  lemma CurrentNext(m: Mem, pc: Pc)
    requires |m.slots| > 0 && (pc.Producing() || pc.Dequeuing()) && Current(m, pc)
    ensures var o := Access(m, pc);
            && Current(o.mem, o.pc) && (o.pc.Producing() || o.pc.Dequeuing() || o.pc.Outside?)
            && |o.mem.slots| == |m.slots|
  {
  }

  lemma WordsStep(m: Mem, role: Role, pc: Pc)
    requires MemOk(m) && PcOk(m, role, pc) && PowerOfTwo(|m.slots|) && Current(m, pc)
    requires pc.Producing() || pc.Dequeuing()
    ensures var o := Access(m, pc);
            && Access32(WrapMem(m), WrapPc(pc)) == Outcome32(WrapMem(o.mem), WrapPc(o.pc))
            && MemOk(o.mem) && PcOk(o.mem, role, o.pc)
  {
    CurrentIsFresh(m, pc);
    CurrentNext(m, pc);
    AccessSimulates(m, role, WrapPc(pc), pc);
    AccessOwn(m, role, pc);
    NotLagging(m, pc);
  }

  lemma NotLagging(m: Mem, pc: Pc)
    requires |m.slots| > 0 && (pc.Producing() || pc.Dequeuing()) && Current(m, pc)
    ensures var o := Access(m, pc); forall cpc :: PcSim(o.mem, cpc, o.pc) ==> cpc == WrapPc(o.pc)
  {
    CurrentNext(m, pc);
  }

  /** The words of a thread that runs alone follow its tickets. */
  lemma {:induction false} WordsAlone(m: Mem, role: Role, pc: Pc, n: nat)
    requires MemOk(m) && PcOk(m, role, pc) && PowerOfTwo(|m.slots|) && Current(m, pc)
    requires pc.Producing() || pc.Dequeuing() || pc.Outside?
    ensures var o := Alone(m, pc, n);
            && Alone32(WrapMem(m), WrapPc(pc), n) == Outcome32(WrapMem(o.mem), WrapPc(o.pc))
            && MemOk(o.mem) && |o.mem.slots| == |m.slots|
    decreases n
  {
    if n > 0 && !pc.Outside? {
      var o := Access(m, pc);
      WordsStep(m, role, pc);
      CurrentNext(m, pc);
      WordsAlone(o.mem, role, o.pc, n - 1);
    }
  }

  ghost predicate Resting32(c: Ring32) { forall t <- c.pcs :: c.pcs[t].Outside? }

  /** The tickets behind a ring at rest. */
  lemma RestingShadow(run: seq<Ring32>, acts: seq<Action>, i: nat) returns (tr: Trace)
    requires IsRun32(run, acts) && i <= |acts| && FreshUpTo(run, acts, i) && Resting32(run[i])
    ensures IsRun(tr.states, tr.acts) && |tr.acts| == i && Resting(tr.states[i]) && MemOk(tr.states[i].mem)
    ensures run[i].mem == WrapMem(tr.states[i].mem) && PowerOfTwo(|tr.states[i].mem.slots|)
    ensures tr.states[i].consumers == run[i].consumers
  {
    tr := WrappedRunRefines(run, acts, i);
    assert FollowsAt(run, tr, i);
    RunInv(tr.states, tr.acts, i);
    forall t <- tr.states[i].pcs ensures tr.states[i].pcs[t].Outside? { SameOutside(run, acts, tr, i, t); }
  }

  predicate Words(m: Mem32) { m.Size() > 0 && m.prodTail < WORD && m.consHead < WORD }

  ghost predicate EnqueueEnds32(m: Mem32, b: Buf) {
    && Words(m)
    && var o := Alone32(m, EnqLoadHead(b), 6);
       if IsFull32(m) then o == Outcome32(m, Outside(NoBufs))
       else o.pc == Outside(Enqueued) && Words(o.mem) && Contents32(o.mem) == Contents32(m) + [b]
  }

  /** On a 32-bit ring at rest an enqueue ends: with ENOBUFS if buf_ring_full
      holds, and else with the buffer at the end of the queue. */
  lemma EnqueueAlone32(run: seq<Ring32>, acts: seq<Action>, i: nat, b: Buf)
    requires IsRun32(run, acts) && i <= |acts| && FreshUpTo(run, acts, i) && Resting32(run[i])
    ensures EnqueueEnds32(run[i].mem, b)
  {
    var tr := RestingShadow(run, acts, i);
    var m := tr.states[i].mem;
    EnqueueAlone(tr.states, tr.acts, i, b);
    EnqueueInWords(m, b);
  }

  lemma EnqueueInWords(m: Mem, b: Buf)
    requires MemOk(m) && PowerOfTwo(|m.slots|) && EnqueueEnds(m, b)
    ensures EnqueueEnds32(WrapMem(m), b)
  {
    assert PcOk(m, ProducerOnly, EnqLoadHead(b));
    WordsAlone(m, ProducerOnly, EnqLoadHead(b), 6);
    SameQueries(m);
    ContentsAgree(m);
    ContentsAgree(Alone(m, EnqLoadHead(b), 6).mem);
  }

  ghost predicate DequeueEnds32(m: Mem32) {
    && Words(m)
    && var o := Alone32(m, DeqLoadHead, 6);
       if Empty32(m) then o == Outcome32(m, Outside(Empty))
       else
         && Contents32(m) != [] && o.pc == Outside(Got(Contents32(m)[0]))
         && Words(o.mem) && Contents32(o.mem) == Contents32(m)[1..]
  }

  /** A dequeue ends: with NULL if buf_ring_empty holds, and else with the front
      of the queue, which it takes off. */
  lemma DequeueAlone32(run: seq<Ring32>, acts: seq<Action>, i: nat)
    requires IsRun32(run, acts) && i <= |acts| && FreshUpTo(run, acts, i) && Resting32(run[i])
    ensures DequeueEnds32(run[i].mem)
  {
    var tr := RestingShadow(run, acts, i);
    var m := tr.states[i].mem;
    DequeueAlone(tr.states, tr.acts, i);
    DequeueInWords(m);
  }

  lemma DequeueInWords(m: Mem)
    requires MemOk(m) && PowerOfTwo(|m.slots|) && DequeueEnds(m)
    ensures DequeueEnds32(WrapMem(m))
  {
    assert PcOk(m, AnyConsumer, DeqLoadHead);
    WordsAlone(m, AnyConsumer, DeqLoadHead, 6);
    SameQueries(m);
    ContentsAgree(m);
    ContentsAgree(Alone(m, DeqLoadHead, 6).mem);
  }
}
