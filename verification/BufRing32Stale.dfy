/** Two runs of the 32-bit ring from buf_ring_alloc in which the words wrap onto
    the snapshot of a thread that is held up before its compare-and-set.

    Thread 1 passes 2^32 buffers through a ring of two slots meanwhile. */
module BufRing32Stale {
  import opened Modular
  import opened BufRing
  import opened BufRing32
  import opened BufRing32Runs

  function Two(m: Mem32, pc0: Pc, pc1: Pc): Ring32 { Ring32(m, Many, map[0 := pc0, 1 := pc1]) }

  /** A ring of two slots with head and tail together at both ends. */
  function Settled(b: Buf, p: nat, c: nat): Mem32 { Mem32(p, p, c, c, [b, b]) }

  /** The run ends in `s` after `e` enqueues and `d` dequeues. */
  ghost predicate Reaches(run: seq<Ring32>, acts: seq<Action>, s: Ring32, e: nat, d: nat) {
    && IsRun32(run, acts) && run[0].consumers == Many && run[|acts|] == s
    && |Enqueued32(run, acts, |acts|)| == e && |Dequeued32(run, acts, |acts|)| == d
  }

  ghost predicate Reachable(s: Ring32, e: nat, d: nat) { exists run, acts :: Reaches(run, acts, s, e, d) }

  function One(b: bool): nat { if b then 1 else 0 }

  // ------------------------------------------------------------ one more action

  lemma {:induction false} SameStart(run: seq<Ring32>, acts: seq<Action>, s: Ring32, a: Action, i: nat)
    requires |run| == |acts| + 1 && i <= |acts|
    ensures Enqueued32(run + [s], acts + [a], i) == Enqueued32(run, acts, i)
    ensures Dequeued32(run + [s], acts + [a], i) == Dequeued32(run, acts, i)
  {
    if i > 0 { SameStart(run, acts, s, a, i - 1); }
  }

  lemma RunOn(run: seq<Ring32>, acts: seq<Action>, a: Action)
    requires IsRun32(run, acts) && Enabled32(run[|acts|], a)
    ensures IsRun32(run + [Exec32(run[|acts|], a)], acts + [a])
  {
    var run', acts' := run + [Exec32(run[|acts|], a)], acts + [a];
    forall i | 0 <= i < |acts'| ensures StepAt32(run', acts', i) {
      if i < |acts| { assert StepAt32(run, acts, i); }
    }
  }

  lemma Act(s: Ring32, a: Action, e: nat, d: nat)
    requires Reachable(s, e, d) && Enabled32(s, a)
    ensures Reachable(Exec32(s, a), e + One(a.Run? && s.pcs[a.t].EnqPublish?),
                      d + One(a.Run? && s.pcs[a.t].DeqPublish?))
  {
    var run, acts :| Reaches(run, acts, s, e, d);
    var s' := Exec32(s, a);
    RunOn(run, acts, a);
    SameStart(run, acts, s', a, |acts|);
    assert Reaches(run + [s'], acts + [a], s', e + One(a.Run? && s.pcs[a.t].EnqPublish?),
                   d + One(a.Run? && s.pcs[a.t].DeqPublish?));
  }

  lemma Call0(m: Mem32, pc0: Pc, pc1: Pc, call: Call, e: nat, d: nat)
    requires Reachable(Two(m, pc0, pc1), e, d) && m.Size() > 0 && pc0.Outside? && (call.Enqueue? || call.DequeueMc?)
    ensures Reachable(Two(m, Entry(call), pc1), e, d)
  {
    var s := Two(m, pc0, pc1);
    Act(s, Invoke(0, call), e, d);
    assert s.pcs[0 := Entry(call)] == Two(m, Entry(call), pc1).pcs;
  }

  lemma Call1(m: Mem32, pc0: Pc, pc1: Pc, call: Call, e: nat, d: nat)
    requires Reachable(Two(m, pc0, pc1), e, d) && m.Size() > 0 && pc1.Outside? && (call.Enqueue? || call.DequeueMc?)
    ensures Reachable(Two(m, pc0, Entry(call)), e, d)
  {
    var s := Two(m, pc0, pc1);
    Act(s, Invoke(1, call), e, d);
    assert s.pcs[1 := Entry(call)] == Two(m, pc0, Entry(call)).pcs;
  }

  /** Thread 0 makes the access `o`. */
  lemma Run0(m: Mem32, pc0: Pc, pc1: Pc, o: Outcome32, e: nat, d: nat)
    requires Reachable(Two(m, pc0, pc1), e, d) && m.Size() > 0 && !pc0.Outside? && o == Access32(m, pc0)
    ensures Reachable(Two(o.mem, o.pc, pc1), e + One(pc0.EnqPublish?), d + One(pc0.DeqPublish?))
  {
    var s := Two(m, pc0, pc1);
    Act(s, Run(0), e, d);
    assert s.pcs[0 := o.pc] == Two(o.mem, o.pc, pc1).pcs;
  }

  /** Thread 1 makes the access `o`. */
  lemma Run1(m: Mem32, pc0: Pc, pc1: Pc, o: Outcome32, e: nat, d: nat)
    requires Reachable(Two(m, pc0, pc1), e, d) && m.Size() > 0 && !pc1.Outside? && o == Access32(m, pc1)
    ensures Reachable(Two(o.mem, pc0, o.pc), e + One(pc1.EnqPublish?), d + One(pc1.DeqPublish?))
  {
    var s := Two(m, pc0, pc1);
    Act(s, Run(1), e, d);
    assert s.pcs[1 := o.pc] == Two(o.mem, pc0, o.pc).pcs;
  }

  // ------------------------------------------------------------------- rounds

  /** One free slot passes the signed test. */
  lemma OneSlotLeft(w: nat)
    ensures Signed(Sub32(Add32(w, 2), Add32(w, 1))) == 1
  {
    WrapSub(w + 2, w + 1);
  }

  /** Both slots hold the same buffer, whichever is written or read. */
  lemma SameBuffer(b: Buf, m: Mem32, x: nat)
    requires m.slots == [b, b]
    ensures m.Write(x, b) == m && m.Read(x) == b
  {
    assert Pow2(1) == 2;
    MaskIsSlot(x, 1);
    assert m.slots[m.Index(x) := b] == m.slots;
  }

  /** Thread 1 claims the free slot of the empty ring. */
  lemma ClaimSlot(b: Buf, w: nat, pc0: Pc, r: Reply, e: nat, d: nat)
    requires Reachable(Two(Settled(b, w, w), pc0, Outside(r)), e, d)
    ensures Reachable(Two(Settled(b, w, w).(prodHead := Add32(w, 1)), pc0, EnqStore(b, w)), e, d)
  {
    var m := Settled(b, w, w);
    Call1(m, pc0, Outside(r), Enqueue(b), e, d);
    Run1(m, pc0, EnqLoadHead(b), Outcome32(m, EnqLoadTail(b, w)), e, d);
    OneSlotLeft(w);
    Run1(m, pc0, EnqLoadTail(b, w), Outcome32(m, EnqCas(b, w)), e, d);
    Run1(m, pc0, EnqCas(b, w), Outcome32(m.(prodHead := Add32(w, 1)), EnqStore(b, w)), e, d);
  }

  /** Thread 1 enqueues into the empty ring. */
  lemma EnqueueRound(b: Buf, w: nat, pc0: Pc, r: Reply, e: nat, d: nat)
    requires Reachable(Two(Settled(b, w, w), pc0, Outside(r)), e, d)
    ensures Reachable(Two(Settled(b, Add32(w, 1), w), pc0, Outside(Enqueued)), e + 1, d)
  {
    var n := Add32(w, 1);
    var m1 := Settled(b, w, w).(prodHead := n);
    ClaimSlot(b, w, pc0, r, e, d);
    SameBuffer(b, m1, w);
    Run1(m1, pc0, EnqStore(b, w), Outcome32(m1, EnqSpin(b, w)), e, d);
    Run1(m1, pc0, EnqSpin(b, w), Outcome32(m1, EnqPublish(b, w)), e, d);
    Run1(m1, pc0, EnqPublish(b, w), Outcome32(Settled(b, n, w), Outside(Enqueued)), e, d);
  }

  /** The accesses of a dequeue that finds head and tail apart. */
  lemma ClaimAccesses(m: Mem32)
    requires m.Size() > 0 && m.consHead != m.prodTail
    ensures var h := m.consHead;
            && Access32(m, DeqLoadHead) == Outcome32(m, DeqLoadTail(h))
            && Access32(m, DeqLoadTail(h)) == Outcome32(m, DeqCas(h))
  {
  }

  /** The accesses of a dequeue whose compare-and-set finds its snapshot again. */
  lemma TakeAccesses(b: Buf, m: Mem32)
    requires m.slots == [b, b] && m.consHead == m.consTail
    ensures var h, n := m.consHead, Add32(m.consHead, 1);
            var m1 := m.(consHead := n);
            && Access32(m, DeqCas(h)) == Outcome32(m1, DeqRead(h))
            && Access32(m1, DeqRead(h)) == Outcome32(m1, DeqSpin(h, b))
            && Access32(m1, DeqSpin(h, b)) == Outcome32(m1, DeqPublish(h, b))
            && Access32(m1, DeqPublish(h, b)) == Outcome32(m1.(consTail := n), Outside(Got(b)))
  {
    SameBuffer(b, m.(consHead := Add32(m.consHead, 1)), m.consHead);
  }

  /** Thread 1 dequeues the one element: up to the compare-and-set. */
  lemma ClaimElement(b: Buf, n: nat, w: nat, pc0: Pc, r: Reply, e: nat, d: nat)
    requires w != n && Reachable(Two(Settled(b, n, w), pc0, Outside(r)), e, d)
    ensures Reachable(Two(Settled(b, n, w), pc0, DeqCas(w)), e, d)
  {
    var m := Settled(b, n, w);
    ClaimAccesses(m);
    Call1(m, pc0, Outside(r), DequeueMc, e, d);
    Run1(m, pc0, DeqLoadHead, Outcome32(m, DeqLoadTail(w)), e, d);
    Run1(m, pc0, DeqLoadTail(w), Outcome32(m, DeqCas(w)), e, d);
  }

  /** And from there on. */
  lemma TakeElement(b: Buf, n: nat, w: nat, pc0: Pc, e: nat, d: nat)
    requires Reachable(Two(Settled(b, n, w), pc0, DeqCas(w)), e, d)
    ensures Reachable(Two(Settled(b, n, Add32(w, 1)), pc0, Outside(Got(b))), e, d + 1)
  {
    var m := Settled(b, n, w);
    var m1 := m.(consHead := Add32(w, 1));
    TakeAccesses(b, m);
    Run1(m, pc0, DeqCas(w), Outcome32(m1, DeqRead(w)), e, d);
    Run1(m1, pc0, DeqRead(w), Outcome32(m1, DeqSpin(w, b)), e, d);
    ReturnElement(b, n, w, pc0, e, d);
  }

  lemma ReturnElement(b: Buf, n: nat, w: nat, pc0: Pc, e: nat, d: nat)
    requires Reachable(Two(Settled(b, n, w).(consHead := Add32(w, 1)), pc0, DeqSpin(w, b)), e, d)
    ensures Reachable(Two(Settled(b, n, Add32(w, 1)), pc0, Outside(Got(b))), e, d + 1)
  {
    var m1 := Settled(b, n, w).(consHead := Add32(w, 1));
    TakeAccesses(b, Settled(b, n, w));
    Run1(m1, pc0, DeqSpin(w, b), Outcome32(m1, DeqPublish(w, b)), e, d);
    Run1(m1, pc0, DeqPublish(w, b), Outcome32(Settled(b, n, Add32(w, 1)), Outside(Got(b))), e, d);
  }

  lemma NextWord(n: nat)
    ensures Add32(Wrap(n), 1) == Wrap(n + 1) && Wrap(n) != Wrap(n + 1)
  {
    WrapAdd(n, 1);
    WrapEqual(n, n + 1);
  }

  /** The ring after `n` buffers have gone through it, with thread 0 at `pc0`. */
  ghost predicate Passed(b: Buf, n: nat, pc0: Pc) {
    exists r :: Reachable(Two(Settled(b, Wrap(n), Wrap(n)), pc0, Outside(r)), n, n)
  }

  /** One more is in the ring. */
  ghost predicate Loaded(b: Buf, n: nat, pc0: Pc) {
    exists r :: Reachable(Two(Settled(b, Wrap(n + 1), Wrap(n)), pc0, Outside(r)), n + 1, n)
  }

  lemma Load(b: Buf, n: nat, pc0: Pc)
    requires Passed(b, n, pc0)
    ensures Loaded(b, n, pc0)
  {
    var r :| Reachable(Two(Settled(b, Wrap(n), Wrap(n)), pc0, Outside(r)), n, n);
    EnqueueRound(b, Wrap(n), pc0, r, n, n);
    NextWord(n);
  }

  lemma Unload(b: Buf, n: nat, pc0: Pc)
    requires Loaded(b, n, pc0)
    ensures Passed(b, n + 1, pc0)
  {
    var r :| Reachable(Two(Settled(b, Wrap(n + 1), Wrap(n)), pc0, Outside(r)), n + 1, n);
    NextWord(n);
    ClaimElement(b, Wrap(n + 1), Wrap(n), pc0, r, n + 1, n);
    TakeElement(b, Wrap(n + 1), Wrap(n), pc0, n + 1, n);
  }

  /** Thread 1 passes more and more buffers while thread 0 stays where it is. */
  lemma {:induction false} PassMore(b: Buf, n: nat, k: nat, pc0: Pc)
    requires Passed(b, n, pc0)
    ensures Passed(b, n + k, pc0)
  {
    if k > 0 {
      PassMore(b, n, k - 1, pc0);
      Load(b, n + k - 1, pc0);
      Unload(b, n + k - 1, pc0);
    }
  }

  lemma Start(b: Buf)
    ensures Passed(b, 0, Outside(NoReply))
  {
    var s := Two(Settled(b, 0, 0), Outside(NoReply), Outside(NoReply));
    assert PowerOfTwo(2) by { assert Pow2(1) == 2; }
    assert Reaches([s], [], s, 0, 0);
  }

  lemma WordPlusOne()
    ensures Wrap(1) == 1 && Wrap(2) == 2 && Wrap(WORD) == 0 && Wrap(WORD + 1) == 1
  {
    assert Wrap(WORD) == SlotOf(0, WORD) && Wrap(WORD + 1) == SlotOf(1, WORD);
  }

  // --------------------------------------------------------- a stale dequeue

  /** Thread 0 takes its snapshot 1 while one element is in the ring. */
  lemma DequeueHeldUp(b: Buf)
    ensures Loaded(b, 1, DeqCas(1))
  {
    Start(b);
    PassMore(b, 0, 1, Outside(NoReply));
    Load(b, 1, Outside(NoReply));
    WordPlusOne();
    var m := Settled(b, 2, 1);
    ClaimAccesses(m);
    var r :| Reachable(Two(m, Outside(NoReply), Outside(r)), 2, 1);
    Call0(m, Outside(NoReply), Outside(r), DequeueMc, 2, 1);
    Run0(m, DeqLoadHead, Outside(r), Outcome32(m, DeqLoadTail(1)), 2, 1);
    Run0(m, DeqLoadTail(1), Outside(r), Outcome32(m, DeqCas(1)), 2, 1);
  }

  /** It goes on when the ring is empty and its head is the word 1 again. */
  lemma DequeueGoesOn(b: Buf, r: Reply, e: nat, d: nat)
    requires Reachable(Two(Settled(b, 1, 1), DeqCas(1), Outside(r)), e, d)
    ensures Reachable(Two(Settled(b, 1, 2), Outside(Got(b)), Outside(r)), e, d + 1)
  {
    WordPlusOne();
    var m := Settled(b, 1, 1);
    var m1 := m.(consHead := 2);
    TakeAccesses(b, m);
    Run0(m, DeqCas(1), Outside(r), Outcome32(m1, DeqRead(1)), e, d);
    Run0(m1, DeqRead(1), Outside(r), Outcome32(m1, DeqSpin(1, b)), e, d);
    Run0(m1, DeqSpin(1, b), Outside(r), Outcome32(m1, DeqPublish(1, b)), e, d);
    Run0(m1, DeqPublish(1, b), Outside(r), Outcome32(Settled(b, 1, 2), Outside(Got(b))), e, d);
  }

  /** A run in which 2^32 + 1 buffers are enqueued and 2^32 + 2 come back. */
  lemma StaleDequeue(b: Buf) returns (run: seq<Ring32>, acts: seq<Action>)
    ensures IsRun32(run, acts) && run[0].consumers == Many
    ensures |Enqueued32(run, acts, |acts|)| == WORD + 1 && |Dequeued32(run, acts, |acts|)| == WORD + 2
    ensures !(Dequeued32(run, acts, |acts|) <= Enqueued32(run, acts, |acts|)) && !FreshUpTo(run, acts, |acts|)
  {
    DequeueHeldUp(b);
    Unload(b, 1, DeqCas(1));
    PassMore(b, 2, WORD - 1, DeqCas(1));
    WordPlusOne();
    var r :| Reachable(Two(Settled(b, 1, 1), DeqCas(1), Outside(r)), WORD + 1, WORD + 1);
    DequeueGoesOn(b, r, WORD + 1, WORD + 1);
    var last := Two(Settled(b, 1, 2), Outside(Got(b)), Outside(r));
    run, acts :| Reaches(run, acts, last, WORD + 1, WORD + 2);
    if FreshUpTo(run, acts, |acts|) { FirstInFirstOut32(run, acts, |acts|); }
  }

  // --------------------------------------------------------- a stale enqueue

  /** Thread 0 takes its snapshot 1 while the ring is empty. */
  lemma EnqueueHeldUp(b: Buf)
    ensures Passed(b, 1, EnqCas(b, 1))
  {
    Start(b);
    PassMore(b, 0, 1, Outside(NoReply));
    WordPlusOne();
    var m := Settled(b, 1, 1);
    var r :| Reachable(Two(m, Outside(NoReply), Outside(r)), 1, 1);
    Call0(m, Outside(NoReply), Outside(r), Enqueue(b), 1, 1);
    Run0(m, EnqLoadHead(b), Outside(r), Outcome32(m, EnqLoadTail(b, 1)), 1, 1);
    OneSlotLeft(1);
    Run0(m, EnqLoadTail(b, 1), Outside(r), Outcome32(m, EnqCas(b, 1)), 1, 1);
  }

  /** It goes on when the ring is full and its head is the word 1 again. */
  lemma EnqueueGoesOn(b: Buf, r: Reply, e: nat, d: nat)
    requires Reachable(Two(Settled(b, 1, 0), EnqCas(b, 1), Outside(r)), e, d)
    ensures Reachable(Two(Settled(b, 2, 0), Outside(Enqueued), Outside(r)), e + 1, d)
  {
    WordPlusOne();
    var m := Settled(b, 1, 0);
    var m1 := m.(prodHead := 2);
    Run0(m, EnqCas(b, 1), Outside(r), Outcome32(m1, EnqStore(b, 1)), e, d);
    SameBuffer(b, m1, 1);
    Run0(m1, EnqStore(b, 1), Outside(r), Outcome32(m1, EnqSpin(b, 1)), e, d);
    Run0(m1, EnqSpin(b, 1), Outside(r), Outcome32(m1, EnqPublish(b, 1)), e, d);
    Run0(m1, EnqPublish(b, 1), Outside(r), Outcome32(Settled(b, 2, 0), Outside(Enqueued)), e, d);
  }

  /** A run after which a ring with one usable slot holds two elements, and
      buf_ring_count reports none. */
  lemma StaleEnqueue(b: Buf) returns (run: seq<Ring32>, acts: seq<Action>)
    ensures IsRun32(run, acts) && run[0].consumers == Many && run[|acts|].mem == Settled(b, 2, 0)
    ensures |Enqueued32(run, acts, |acts|)| == WORD + 2 && |Dequeued32(run, acts, |acts|)| == WORD
    ensures Count32(run[|acts|].mem) == 0 && !FreshUpTo(run, acts, |acts|)
  {
    EnqueueHeldUp(b);
    PassMore(b, 1, WORD - 1, EnqCas(b, 1));
    Load(b, WORD, EnqCas(b, 1));
    WordPlusOne();
    var r :| Reachable(Two(Settled(b, 1, 0), EnqCas(b, 1), Outside(r)), WORD + 1, WORD);
    EnqueueGoesOn(b, r, WORD + 1, WORD);
    var last := Two(Settled(b, 2, 0), Outside(Enqueued), Outside(r));
    run, acts :| Reaches(run, acts, last, WORD + 2, WORD);
    assert Wrap(4) == 4 && Pow2(1) == 2;
    MaskIsSlot(4, 1);
    if FreshUpTo(run, acts, |acts|) { FirstInFirstOut32(run, acts, |acts|); }
  }
}
