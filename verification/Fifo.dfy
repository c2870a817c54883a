/** The semaphore-guarded FIFO of kernel/sched/mdx_fifo.c as a transition system.

    Any number of threads put and get.  A step takes or releases the spin lock,
    posts or takes the semaphore, or makes one pointer write of list_append or
    list_remove in the shared links; every interleaving of these steps is a run.
    Only the lock keeps the writes of two threads apart. */
module Fifo {
  import opened FifoLinks

  type Tid = nat

  datatype Call = Put(e: Ref) | Get | GetWait

  datatype Reply = NoReply | Done | Null | Got(e: Ref)

  datatype Pc =
    | Outside(reply: Reply)
      // mdx_fifo_put, with the four writes of list_append
    | PutLock(e: Ref)
    | AimNext(e: Ref)
    | AimPrev(e: Ref)
    | TieBack(e: Ref)
    | TieFront(e: Ref)
    | PutUnlock
    | PutPost
      // mdx_fifo_get and mdx_fifo_get_wait, with the four writes of list_remove
    | TryWait
    | Wait
    | GetLock
    | GetFirst
    | UntieFront(e: Ref)
    | UntieBack(e: Ref)
    | InitNext(e: Ref)
    | InitPrev(e: Ref)
    | GetUnlock(e: Ref)
  {
    predicate Writing() {
      || AimNext? || AimPrev? || TieBack? || TieFront?
      || GetFirst? || UntieFront? || UntieBack? || InitNext? || InitPrev?
    }

    predicate InLock() { Writing() || PutUnlock? || GetUnlock? }

    /** An element is in the list that the semaphore does not count yet. */
    predicate OwesPost() { PutUnlock? || PutPost? }

    /** A count was taken off the semaphore for an element still in the list. */
    predicate OwesRemove() { GetLock? || GetFirst? || UntieFront? || UntieBack? }

    /** The entry is on its way into the list. */
    predicate Carries(x: Ref) { (PutLock? || AimNext? || AimPrev? || TieBack? || TieFront?) && e == x }

    /** The links are no ring at this point. */
    predicate Midway() { TieFront? || UntieBack? }
  }

  /** `put` and `taken` are history, which no step reads: the entries whose append
      and whose removal are complete, in that order. */
  datatype Fifo = Fifo(links: Memory, sem: nat, locked: bool, pcs: map<Tid, Pc>, put: seq<Ref>, taken: seq<Ref>) {
    /** What is put and not taken. */
    function List(): seq<Ref> { Untaken(put, taken) }
  }

  function Untaken(put: seq<Ref>, taken: seq<Ref>): seq<Ref> {
    if |taken| <= |put| then put[|taken|..] else []
  }

  datatype Action = Invoke(t: Tid, call: Call) | Run(t: Tid)

  function Entry(call: Call): Pc {
    match call
    case Put(e) => PutLock(e)
    case Get => TryWait
    case GetWait => Wait
  }

  /** What the callers owe: an entry that is put is in no list yet, and nobody
      else is putting it. */
  predicate MayCall(s: Fifo, call: Call) {
    call.Put? ==> call.e != HEAD && call.e !in s.List() && forall u <- s.pcs :: !s.pcs[u].Carries(call.e)
  }

  /** A lock taken by someone else, or a count of zero, makes a thread wait. */
  predicate MayRun(s: Fifo, pc: Pc) {
    match pc
    case Outside(_) => false
    case PutLock(_) => !s.locked
    case GetLock => !s.locked
    case Wait => s.sem > 0
    case _ => true
  }

  predicate Enabled(s: Fifo, a: Action) {
    a.t in s.pcs &&
    match a
    case Invoke(t, call) => s.pcs[t].Outside? && MayCall(s, call)
    case Run(t) => MayRun(s, s.pcs[t])
  }

  /** The links after the next write of a thread inside the lock. */
  function Written(m: Memory, pc: Pc): Memory {
    match pc
    case AimNext(e) => SetNext(m, e, HEAD)
    case AimPrev(e) => SetPrev(m, e, Prev(m, HEAD))
    case TieBack(e) => SetPrev(m, Next(m, e), e)
    case TieFront(e) => SetNext(m, Prev(m, e), e)
    case UntieFront(e) => SetNext(m, Prev(m, e), Next(m, e))
    case UntieBack(e) => SetPrev(m, Next(m, e), Prev(m, e))
    case InitNext(e) => SetNext(m, e, e)
    case InitPrev(e) => SetPrev(m, e, e)
    case _ => m
  }

  /** Where the thread is after it. */
  function After(m: Memory, pc: Pc): Pc
    requires pc.Writing()
  {
    match pc
    case AimNext(e) => AimPrev(e)
    case AimPrev(e) => TieBack(e)
    case TieBack(e) => TieFront(e)
    case TieFront(e) => PutUnlock
    case GetFirst => UntieFront(Next(m, HEAD))
    case UntieFront(e) => UntieBack(e)
    case UntieBack(e) => InitNext(e)
    case InitNext(e) => InitPrev(e)
    case InitPrev(e) => GetUnlock(e)
  }

  function PutBy(pc: Pc): seq<Ref> { if pc.TieFront? then [pc.e] else [] }

  function TakenBy(pc: Pc): seq<Ref> { if pc.UntieBack? then [pc.e] else [] }

  datatype Outcome = Outcome(s: Fifo, pc: Pc)

  function Access(s: Fifo, pc: Pc): Outcome
    requires MayRun(s, pc)
  {
    if pc.Writing() then
      Outcome(s.(links := Written(s.links, pc), put := s.put + PutBy(pc), taken := s.taken + TakenBy(pc)),
              After(s.links, pc))
    else match pc
      case PutLock(e) => Outcome(s.(locked := true), AimNext(e))
      case PutUnlock => Outcome(s.(locked := false), PutPost)
      case PutPost => Outcome(s.(sem := s.sem + 1), Outside(Done))
      case TryWait => if s.sem == 0 then Outcome(s, Outside(Null)) else Outcome(s.(sem := s.sem - 1), GetLock)
      case Wait => Outcome(s.(sem := s.sem - 1), GetLock)
      case GetLock => Outcome(s.(locked := true), GetFirst)
      case GetUnlock(e) => Outcome(s.(locked := false), Outside(Got(e)))
  }

  function Exec(s: Fifo, a: Action): Fifo
    requires Enabled(s, a)
  {
    match a
    case Invoke(t, call) => s.(pcs := s.pcs[t := Entry(call)])
    case Run(t) =>
      var o := Access(s, s.pcs[t]);
      o.s.(pcs := s.pcs[t := o.pc])
  }

  /** mdx_fifo_init. */
  predicate Init(s: Fifo) {
    && Next(s.links, HEAD) == Prev(s.links, HEAD) == HEAD && s.sem == 0 && !s.locked && s.put == [] && s.taken == []
    && forall t <- s.pcs :: s.pcs[t] == Outside(NoReply)
  }

  ghost predicate StepAt(run: seq<Fifo>, acts: seq<Action>, i: nat)
    requires |run| == |acts| + 1 && i < |acts|
  {
    Enabled(run[i], acts[i]) && run[i + 1] == Exec(run[i], acts[i])
  }

  ghost predicate IsRun(run: seq<Fifo>, acts: seq<Action>) {
    && |run| == |acts| + 1 && Init(run[0])
    && forall i: nat | i < |acts| :: StepAt(run, acts, i)
  }

  // ----------------------------------------------------------------- counting

  ghost function PostOwers(pcs: map<Tid, Pc>): set<Tid> { set t <- pcs | pcs[t].OwesPost() }

  ghost function RemoveOwers(pcs: map<Tid, Pc>): set<Tid> { set t <- pcs | pcs[t].OwesRemove() }

  ghost function Holders(pcs: map<Tid, Pc>): set<Tid> { set t <- pcs | pcs[t].InLock() }

  function One(b: bool): nat { if b then 1 else 0 }

  lemma Resize(a: set<Tid>, b: set<Tid>, t: Tid)
    requires a - {t} == b - {t}
    ensures |b| == |a| - One(t in a) + One(t in b)
  {
    assert a == (a - {t}) + (if t in a then {t} else {});
    assert b == (b - {t}) + (if t in b then {t} else {});
  }

  /** One thread moves: the three counts change by that thread alone. */
  lemma Moved(pcs: map<Tid, Pc>, t: Tid, pc: Pc)
    requires t in pcs
    ensures var pcs' := pcs[t := pc];
            && |PostOwers(pcs')| == |PostOwers(pcs)| - One(pcs[t].OwesPost()) + One(pc.OwesPost())
            && |RemoveOwers(pcs')| == |RemoveOwers(pcs)| - One(pcs[t].OwesRemove()) + One(pc.OwesRemove())
            && |Holders(pcs')| == |Holders(pcs)| - One(pcs[t].InLock()) + One(pc.InLock())
  {
    var pcs' := pcs[t := pc];
    Resize(PostOwers(pcs), PostOwers(pcs'), t);
    Resize(RemoveOwers(pcs), RemoveOwers(pcs'), t);
    Resize(Holders(pcs), Holders(pcs'), t);
  }

  /** The list holds what the semaphore counts, what is still to be posted and
      what is still to be removed; the lock has at most one holder. */
  ghost predicate Counted(s: Fifo) {
    && |s.taken| <= |s.put|
    && |s.List()| == s.sem + |RemoveOwers(s.pcs)| + |PostOwers(s.pcs)|
    && |Holders(s.pcs)| == One(s.locked)
  }

  lemma OwerCounts(pcs: map<Tid, Pc>, t: Tid)
    requires t in pcs
    ensures pcs[t].OwesRemove() ==> |RemoveOwers(pcs)| > 0
    ensures pcs[t].OwesPost() ==> |PostOwers(pcs)| > 0
    ensures pcs[t].InLock() ==> |Holders(pcs)| > 0
  {
    if pcs[t].OwesRemove() { assert t in RemoveOwers(pcs); }
    if pcs[t].OwesPost() { assert t in PostOwers(pcs); }
    if pcs[t].InLock() { assert t in Holders(pcs); }
  }

  /** A getter that is past the semaphore finds an element. */
  lemma NeverEmpty(s: Fifo, t: Tid)
    requires Counted(s) && t in s.pcs && s.pcs[t].OwesRemove()
    ensures s.List() != []
  {
    OwerCounts(s.pcs, t);
  }

  lemma Bigger(a: set<Tid>, b: set<Tid>)
    requires a <= b
    ensures |a| <= |b|
  {
    assert b == a + (b - a);
  }

  lemma SoleHolder(s: Fifo, t: Tid, u: Tid)
    requires Counted(s) && t in s.pcs && u in s.pcs && s.pcs[t].InLock() && s.pcs[u].InLock()
    ensures t == u && s.locked
  {
    var h := Holders(s.pcs);
    assert t in h && u in h;
    if t != u {
      assert {t, u} <= h;
      Bigger({t, u}, h);
    }
  }

  lemma CountsKept(s: Fifo, a: Action)
    requires Counted(s) && Enabled(s, a)
    ensures Counted(Exec(s, a))
  {
    match a
    case Invoke(t, call) => Moved(s.pcs, t, Entry(call));
    case Run(t) => if s.pcs[t].Writing() { WriteCounted(s, t); } else { SyncCounted(s, t); }
  }

  lemma WriteCounted(s: Fifo, t: Tid)
    requires Counted(s) && Enabled(s, Run(t)) && s.pcs[t].Writing()
    ensures Counted(Exec(s, Run(t)))
  {
    Moved(s.pcs, t, After(s.links, s.pcs[t]));
    OwerCounts(s.pcs, t);
  }

  lemma SyncCounted(s: Fifo, t: Tid)
    requires Counted(s) && Enabled(s, Run(t)) && !s.pcs[t].Writing()
    ensures Counted(Exec(s, Run(t)))
  {
    Moved(s.pcs, t, Access(s, s.pcs[t]).pc);
    OwerCounts(s.pcs, t);
  }

  // ------------------------------------------------------------- the invariant

  /** How far a thread has got, as the links show it. */
  ghost predicate PcOk(m: Memory, list: seq<Ref>, pc: Pc) {
    match pc
    case PutLock(e) => Loose(list, e)
    case AimNext(e) => Loose(list, e)
    case AimPrev(e) => Loose(list, e) && Next(m, e) == HEAD
    case TieBack(e) => Aimed(m, list, e)
    case TieFront(e) => TiedBack(m, list, e)
    case UntieFront(e) => list != [] && e == list[0]
    case UntieBack(e) => Skipped(m, list) && e == list[0]
    case InitNext(e) => Loose(list, e)
    case InitPrev(e) => Loose(list, e) && Next(m, e) == e
    case GetUnlock(e) => Loose(list, e) && Next(m, e) == e && Prev(m, e) == e
    case Outside(reply) => reply.Got? ==> reply.e != HEAD
    case _ => true
  }

  ghost predicate NobodyMidway(pcs: map<Tid, Pc>) { forall t <- pcs :: !pcs[t].Midway() }

  ghost predicate Apart(p: Pc, q: Pc) { forall e :: !(p.Carries(e) && q.Carries(e)) }

  ghost predicate Inv(s: Fifo) {
    && Counted(s) && s.taken <= s.put
    && (NobodyMidway(s.pcs) ==> Ring(s.links, s.List()))
    && (forall t <- s.pcs :: PcOk(s.links, s.List(), s.pcs[t]))
    && (forall t <- s.pcs, u <- s.pcs :: t != u ==> Apart(s.pcs[t], s.pcs[u]))
  }

  // -------------------------------------------------------------- one write

  function ListAfter(list: seq<Ref>, pc: Pc): seq<Ref> {
    if pc.TieFront? then list + [pc.e]
    else if pc.UntieBack? && list != [] then list[1..]
    else list
  }

  /** The history after a write. */
  lemma HistoryAfter(put: seq<Ref>, taken: seq<Ref>, pc: Pc)
    requires taken <= put && (pc.UntieBack? ==> Untaken(put, taken) != [] && pc.e == Untaken(put, taken)[0])
    ensures taken + TakenBy(pc) <= put + PutBy(pc)
    ensures Untaken(put + PutBy(pc), taken + TakenBy(pc)) == ListAfter(Untaken(put, taken), pc)
  {
  }

  /** What a write of list_append makes of the ring. */
  lemma AppendWrite(m: Memory, list: seq<Ref>, pc: Pc)
    requires pc.AimNext? || pc.AimPrev? || pc.TieBack? || pc.TieFront?
    requires PcOk(m, list, pc) && (!pc.Midway() ==> Ring(m, list))
    ensures PcOk(Written(m, pc), ListAfter(list, pc), After(m, pc))
    ensures !After(m, pc).Midway() ==> Ring(Written(m, pc), ListAfter(list, pc))
  {
    match pc
    case AimNext(e) => WriteLoose(m, list, e, HEAD);
    case AimPrev(e) =>
      assert PrevAt(m, list, |list|);
      WriteLoose(m, list, e, Prev(m, HEAD));
    case TieBack(e) => FifoLinks.TieBack(m, list, e);
    case TieFront(e) => FifoLinks.TieFront(m, list, e);
  }

  /** What a write of list_remove makes of it. */
  lemma RemoveWrite(m: Memory, list: seq<Ref>, pc: Pc)
    requires pc.GetFirst? || pc.UntieFront? || pc.UntieBack? || pc.InitNext? || pc.InitPrev?
    requires PcOk(m, list, pc) && (!pc.Midway() ==> Ring(m, list)) && (pc.GetFirst? ==> list != [])
    ensures PcOk(Written(m, pc), ListAfter(list, pc), After(m, pc))
    ensures !After(m, pc).Midway() ==> Ring(Written(m, pc), ListAfter(list, pc))
  {
    match pc
    case GetFirst => assert NextAt(m, list, 0);
    case UntieFront(_) => FifoLinks.UntieFront(m, list);
    case UntieBack(_) => FifoLinks.UntieBack(m, list);
    case InitNext(e) => WriteLoose(m, list, e, e);
    case InitPrev(e) => WriteLoose(m, list, e, e);
  }

  /** A thread outside the lock does not notice. */
  lemma OtherWrite(m: Memory, list: seq<Ref>, pc: Pc, q: Pc)
    requires pc.Writing() && !q.InLock() && PcOk(m, list, q) && Apart(pc, q)
    ensures PcOk(Written(m, pc), ListAfter(list, pc), q) && Apart(After(m, pc), q)
  {
    if pc.TieFront? && q.PutLock? { assert pc.Carries(pc.e) && q.Carries(q.e); }
    forall x ensures !(After(m, pc).Carries(x) && q.Carries(x)) {
      if After(m, pc).Carries(x) { assert pc.Carries(x); }
    }
  }

  // ---------------------------------------------------------------- every step

  /** Thread `t` moves to `pc`; the memory and the history change to those of `s'`. */
  lemma Regroup(s: Fifo, s': Fifo, t: Tid, pc: Pc)
    requires Inv(s) && t in s.pcs && s'.pcs == s.pcs[t := pc] && Counted(s') && s'.taken <= s'.put
    requires NobodyMidway(s'.pcs) ==> Ring(s'.links, s'.List())
    requires PcOk(s'.links, s'.List(), pc)
    requires forall u <- s.pcs | u != t :: PcOk(s'.links, s'.List(), s.pcs[u]) && Apart(pc, s.pcs[u])
    ensures Inv(s')
  {
    forall u <- s'.pcs, v <- s'.pcs | u != v ensures Apart(s'.pcs[u], s'.pcs[v]) {
      if u == t { assert Apart(pc, s.pcs[v]); }
      else if v == t { assert Apart(pc, s.pcs[u]); }
      else { assert Apart(s.pcs[u], s.pcs[v]); }
    }
  }

  lemma NobodyBefore(pcs: map<Tid, Pc>, t: Tid, pc: Pc)
    requires t in pcs && !pcs[t].Midway()
    ensures NobodyMidway(pcs[t := pc]) ==> NobodyMidway(pcs)
  {
    var pcs' := pcs[t := pc];
    assert forall u <- pcs :: u in pcs' && (u != t ==> pcs'[u] == pcs[u]);
  }

  lemma InvokeKeepsInv(s: Fifo, t: Tid, call: Call)
    requires Inv(s) && Enabled(s, Invoke(t, call))
    ensures Inv(Exec(s, Invoke(t, call)))
  {
    var s' := Exec(s, Invoke(t, call));
    CountsKept(s, Invoke(t, call));
    NobodyBefore(s.pcs, t, Entry(call));
    Regroup(s, s', t, Entry(call));
  }

  /** Taking and releasing the lock and the semaphore. */
  lemma SyncKeepsInv(s: Fifo, t: Tid)
    requires Inv(s) && Enabled(s, Run(t)) && !s.pcs[t].Writing()
    ensures Inv(Exec(s, Run(t)))
  {
    var s', pc' := Exec(s, Run(t)), Access(s, s.pcs[t]).pc;
    CountsKept(s, Run(t));
    assert PcOk(s.links, s.List(), s.pcs[t]);
    forall u <- s.pcs | u != t ensures PcOk(s.links, s.List(), s.pcs[u]) && Apart(pc', s.pcs[u]) {
      assert Apart(s.pcs[t], s.pcs[u]);
      forall x ensures !(pc'.Carries(x) && s.pcs[u].Carries(x)) {
        if pc'.Carries(x) { assert s.pcs[t].Carries(x); }
      }
    }
    NobodyBefore(s.pcs, t, pc');
    Regroup(s, s', t, pc');
  }

  /** The other threads while `t` writes: outside the lock. */
  lemma OthersOutside(s: Fifo, t: Tid)
    requires Inv(s) && t in s.pcs && s.pcs[t].InLock()
    ensures forall u <- s.pcs | u != t :: !s.pcs[u].InLock()
    ensures !s.pcs[t].Midway() ==> Ring(s.links, s.List())
  {
    forall u <- s.pcs | u != t ensures !s.pcs[u].InLock() {
      if s.pcs[u].InLock() { SoleHolder(s, t, u); }
    }
  }

  lemma OwnWrite(s: Fifo, t: Tid)
    requires Inv(s) && t in s.pcs && s.pcs[t].Writing()
    ensures var pc := s.pcs[t];
            var m', list', pc' := Written(s.links, pc), ListAfter(s.List(), pc), After(s.links, pc);
            && PcOk(m', list', pc') && (!pc'.Midway() ==> Ring(m', list'))
            && s.taken + TakenBy(pc) <= s.put + PutBy(pc)
            && Untaken(s.put + PutBy(pc), s.taken + TakenBy(pc)) == list'
  {
    var pc := s.pcs[t];
    OthersOutside(s, t);
    assert PcOk(s.links, s.List(), pc);
    if pc.GetFirst? { NeverEmpty(s, t); }
    HistoryAfter(s.put, s.taken, pc);
    if pc.AimNext? || pc.AimPrev? || pc.TieBack? || pc.TieFront? {
      AppendWrite(s.links, s.List(), pc);
    } else {
      RemoveWrite(s.links, s.List(), pc);
    }
  }

  lemma WriteKeepsInv(s: Fifo, t: Tid)
    requires Inv(s) && Enabled(s, Run(t)) && s.pcs[t].Writing()
    ensures Inv(Exec(s, Run(t)))
  {
    var s', pc := Exec(s, Run(t)), s.pcs[t];
    var pc' := After(s.links, pc);
    CountsKept(s, Run(t));
    OthersOutside(s, t);
    OwnWrite(s, t);
    forall u <- s.pcs | u != t ensures PcOk(s'.links, s'.List(), s.pcs[u]) && Apart(pc', s.pcs[u]) {
      OtherWrite(s.links, s.List(), pc, s.pcs[u]);
    }
    assert NobodyMidway(s'.pcs) ==> !pc'.Midway() by { assert s'.pcs[t] == pc'; }
    Regroup(s, s', t, pc');
  }

  lemma StepKeepsInv(s: Fifo, a: Action)
    requires Inv(s) && Enabled(s, a)
    ensures Inv(Exec(s, a))
  {
    match a
    case Invoke(t, call) => InvokeKeepsInv(s, t, call);
    case Run(t) => if s.pcs[t].Writing() { WriteKeepsInv(s, t); } else { SyncKeepsInv(s, t); }
  }

  lemma {:induction false} RunInv(run: seq<Fifo>, acts: seq<Action>, i: nat)
    requires IsRun(run, acts) && i < |run|
    ensures Inv(run[i])
  {
    if i == 0 {
      var pcs := run[0].pcs;
      assert PostOwers(pcs) == {} && RemoveOwers(pcs) == {} && Holders(pcs) == {};
      EmptyRing(run[0].links);
    } else {
      RunInv(run, acts, i - 1);
      assert StepAt(run, acts, i - 1);
      StepKeepsInv(run[i - 1], acts[i - 1]);
    }
  }

  // ----------------------------------------------------------- what follows

  /** Whenever the lock is free the links form a ring, and it holds exactly the
      entries put and not taken, in the order in which they were put. */
  lemma RingWhenUnlocked(run: seq<Fifo>, acts: seq<Action>, i: nat)
    requires IsRun(run, acts) && i < |run| && !run[i].locked
    ensures run[i].taken <= run[i].put && Ring(run[i].links, run[i].put[|run[i].taken|..])
  {
    RunInv(run, acts, i);
    forall t <- run[i].pcs ensures !run[i].pcs[t].Midway() {
      if run[i].pcs[t].Midway() { SoleHolder(run[i], t, t); }
    }
  }

  /** In every interleaving the entries leave in the order they were put. */
  lemma FirstInFirstOut(run: seq<Fifo>, acts: seq<Action>, i: nat)
    requires IsRun(run, acts) && i < |run|
    ensures run[i].taken <= run[i].put
  {
    RunInv(run, acts, i);
  }

  /** The n-th removal takes the n-th entry that was put. */
  lemma GetReturnsNext(run: seq<Fifo>, acts: seq<Action>, i: nat, t: Tid)
    requires IsRun(run, acts) && i < |acts| && acts[i] == Run(t) && t in run[i].pcs && run[i].pcs[t].UntieBack?
    ensures t in run[i + 1].pcs && |run[i].taken| < |run[i].put|
    ensures var e := run[i].put[|run[i].taken|];
            run[i].pcs[t].e == e && run[i + 1].pcs[t] == InitNext(e) && run[i + 1].taken == run[i].taken + [e]
  {
    RunInv(run, acts, i);
    assert StepAt(run, acts, i);
    assert PcOk(run[i].links, run[i].List(), run[i].pcs[t]);
  }

  /** No get ever takes or returns the head of the list; the entry it returns is
      linked to itself. */
  lemma GetsReturnElements(run: seq<Fifo>, acts: seq<Action>, i: nat, t: Tid)
    requires IsRun(run, acts) && i < |run| && t in run[i].pcs
    ensures run[i].pcs[t].Outside? && run[i].pcs[t].reply.Got? ==> run[i].pcs[t].reply.e != HEAD
    ensures run[i].pcs[t].UntieFront? ==> run[i].pcs[t].e != HEAD
    ensures run[i].pcs[t].GetUnlock? ==>
              var e := run[i].pcs[t].e; e != HEAD && run[i].links[e := Links(e, e)] == run[i].links
  {
    RunInv(run, acts, i);
    assert PcOk(run[i].links, run[i].List(), run[i].pcs[t]);
    if run[i].pcs[t].UntieFront? { OthersOutside(run[i], t); }
  }

  /** At most one thread is inside the lock. */
  lemma MutualExclusion(run: seq<Fifo>, acts: seq<Action>, i: nat, t: Tid, u: Tid)
    requires IsRun(run, acts) && i < |run| && t in run[i].pcs && u in run[i].pcs
    requires run[i].pcs[t].InLock() && run[i].pcs[u].InLock()
    ensures t == u && run[i].locked
  {
    RunInv(run, acts, i);
    SoleHolder(run[i], t, u);
  }

  /** At rest, with no call under way, the semaphore counts the ring. */
  lemma QuietCount(run: seq<Fifo>, acts: seq<Action>, i: nat)
    requires IsRun(run, acts) && i < |run| && forall t <- run[i].pcs :: run[i].pcs[t].Outside?
    ensures run[i].sem == |run[i].put| - |run[i].taken| && Ring(run[i].links, run[i].put[|run[i].taken|..])
  {
    RunInv(run, acts, i);
    var pcs := run[i].pcs;
    assert PostOwers(pcs) == {} && RemoveOwers(pcs) == {} && Holders(pcs) == {};
    RingWhenUnlocked(run, acts, i);
  }
}
