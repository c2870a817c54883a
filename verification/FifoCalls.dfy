/** What the replies of the FIFO's calls mean, in every interleaving. */
module FifoCalls {
  import opened FifoLinks
  import opened Fifo

  /** Thread `t` is inside a call in the states `lo` to `hi`. */
  ghost predicate InCall(run: seq<Fifo>, t: Tid, lo: nat, hi: nat)
    requires hi < |run|
  {
    forall k :: lo <= k <= hi ==> t in run[k].pcs && !run[k].pcs[t].Outside?
  }

  /** Action `k` of thread `t` completes the append of `e`. */
  ghost predicate Appends(run: seq<Fifo>, acts: seq<Action>, t: Tid, k: nat, e: Ref)
    requires |run| == |acts| + 1 && k < |acts|
  {
    && acts[k] == Run(t) && t in run[k].pcs && run[k].pcs[t] == TieFront(e)
    && run[k + 1].put == run[k].put + [e] && run[k + 1].taken == run[k].taken
  }

  /** Action `k` of thread `t` removes `e`, the oldest entry that was put and not taken. */
  ghost predicate Removes(run: seq<Fifo>, acts: seq<Action>, t: Tid, k: nat, e: Ref)
    requires |run| == |acts| + 1 && k < |acts|
  {
    && acts[k] == Run(t) && t in run[k].pcs && run[k].pcs[t] == UntieBack(e)
    && |run[k].taken| < |run[k].put| && e == run[k].put[|run[k].taken|]
    && run[k + 1].taken == run[k].taken + [e] && run[k + 1].put == run[k].put
  }

  /** The call that `j` invoked and `i` completed did what `reply` says. */
  ghost predicate Explained(run: seq<Fifo>, acts: seq<Action>, t: Tid, j: nat, i: nat, call: Call, reply: Reply)
    requires |run| == |acts| + 1 && i < |acts|
  {
    match reply
    case Done =>
      && call.Put? && run[i + 1].sem == run[i].sem + 1
      && exists k: nat :: j < k < i && Appends(run, acts, t, k, call.e)
    case Null => call.Get? && run[i].sem == 0
    case Got(e) =>
      && (call.Get? || call.GetWait?) && Next(run[i + 1].links, e) == e && Prev(run[i + 1].links, e) == e
      && exists k: nat :: j < k < i && Removes(run, acts, t, k, e)
    case NoReply => false
  }

  /** What has happened since the call began, by where the thread is. */
  ghost predicate Progress(run: seq<Fifo>, acts: seq<Action>, t: Tid, i: nat, j: nat, call: Call, k: nat)
    requires |run| == |acts| + 1 && i < |run|
  {
    && j < i && acts[j] == Invoke(t, call) && InCall(run, t, j + 1, i)
    && match run[i].pcs[t]
       case PutUnlock => call.Put? && j < k < i && Appends(run, acts, t, k, call.e)
       case PutPost => call.Put? && j < k < i && Appends(run, acts, t, k, call.e)
       case TryWait => call.Get?
       case InitNext(e) => !call.Put? && j < k < i && Removes(run, acts, t, k, e)
       case InitPrev(e) => !call.Put? && j < k < i && Removes(run, acts, t, k, e)
       case GetUnlock(e) => !call.Put? && j < k < i && Removes(run, acts, t, k, e)
       case _ => if call.Put? then run[i].pcs[t].Carries(call.e) else Seeking(run[i].pcs[t])
  }

  predicate Seeking(pc: Pc) {
    pc.TryWait? || pc.Wait? || pc.GetLock? || pc.GetFirst? || pc.UntieFront? || pc.UntieBack?
  }

  lemma StepOf(run: seq<Fifo>, acts: seq<Action>, i: nat)
    requires IsRun(run, acts) && i < |acts|
    ensures StepAt(run, acts, i) && acts[i].t in run[i].pcs && run[i + 1].pcs.Keys == run[i].pcs.Keys
    ensures forall u <- run[i].pcs | u != acts[i].t :: run[i + 1].pcs[u] == run[i].pcs[u]
  {
    assert StepAt(run, acts, i);
  }

  /** A step of the thread that appends or removes. */
  lemma ChangingStep(run: seq<Fifo>, acts: seq<Action>, t: Tid, i: nat)
    requires IsRun(run, acts) && i < |acts| && acts[i] == Run(t) && t in run[i].pcs
    ensures run[i].pcs[t].TieFront? ==> Appends(run, acts, t, i, run[i].pcs[t].e)
    ensures run[i].pcs[t].UntieBack? ==> Removes(run, acts, t, i, run[i].pcs[t].e)
  {
    assert StepAt(run, acts, i);
    if run[i].pcs[t].UntieBack? { GetReturnsNext(run, acts, i, t); }
  }

  /** A step of the thread itself that does not return. */
  lemma ProgressOwn(run: seq<Fifo>, acts: seq<Action>, t: Tid, i: nat, j: nat, call: Call, k: nat) returns (k': nat)
    requires IsRun(run, acts) && i < |acts| && acts[i] == Run(t) && Progress(run, acts, t, i, j, call, k)
    requires t in run[i + 1].pcs && !run[i + 1].pcs[t].Outside?
    ensures Progress(run, acts, t, i + 1, j, call, k')
  {
    StepOf(run, acts, i);
    ChangingStep(run, acts, t, i);
    k' := if run[i].pcs[t].TieFront? || run[i].pcs[t].UntieBack? then i else k;
  }

  lemma {:induction false} CallSoFar(run: seq<Fifo>, acts: seq<Action>, t: Tid, i: nat)
    returns (j: nat, call: Call, k: nat)
    requires IsRun(run, acts) && i < |run| && t in run[i].pcs && !run[i].pcs[t].Outside?
    ensures Progress(run, acts, t, i, j, call, k)
  {
    assert i > 0;
    StepOf(run, acts, i - 1);
    if acts[i - 1].t != t {
      j, call, k := CallSoFar(run, acts, t, i - 1);
    } else if acts[i - 1].Invoke? {
      j, call, k := i - 1, acts[i - 1].call, 0;
    } else {
      j, call, k := CallSoFar(run, acts, t, i - 1);
      k := ProgressOwn(run, acts, t, i - 1, j, call, k);
    }
  }

  /** In every interleaving a put that returns has appended its own entry and
      posted; a get that returns an entry has removed that entry, the oldest one
      put and not taken; and one that returns NULL found the count at zero. */
  lemma ReplyExplained(run: seq<Fifo>, acts: seq<Action>, i: nat)
    requires IsRun(run, acts) && i < |acts| && acts[i].Run?
    requires acts[i].t in run[i + 1].pcs && run[i + 1].pcs[acts[i].t].Outside?
    ensures exists j: nat, call ::
              && j < i && acts[j] == Invoke(acts[i].t, call) && InCall(run, acts[i].t, j + 1, i)
              && Explained(run, acts, acts[i].t, j, i, call, run[i + 1].pcs[acts[i].t].reply)
  {
    var t := acts[i].t;
    StepOf(run, acts, i);
    var j, call, k := CallSoFar(run, acts, t, i);
    RunInv(run, acts, i);
    assert PcOk(run[i].links, run[i].List(), run[i].pcs[t]);
    assert Explained(run, acts, t, j, i, call, run[i + 1].pcs[t].reply);
  }

  /** mdx_fifo_get returns NULL exactly when it finds the count at zero. */
  lemma NullExactly(run: seq<Fifo>, acts: seq<Action>, i: nat, t: Tid)
    requires IsRun(run, acts) && i < |acts| && acts[i] == Run(t) && t in run[i].pcs && run[i].pcs[t].TryWait?
    ensures t in run[i + 1].pcs
    ensures run[i + 1].pcs[t] == Outside(Null) <==> run[i].sem == 0
    ensures run[i + 1].pcs[t] == GetLock <==> run[i].sem > 0
  {
    StepOf(run, acts, i);
  }

  // -------------------------------------------------------------- calls end

  /** How many steps of its own a call still makes at most. */
  function StepsLeft(pc: Pc): nat {
    match pc
    case Outside(_) => 0
    case PutLock(_) => 7
    case AimNext(_) => 6
    case AimPrev(_) => 5
    case TieBack(_) => 4
    case TieFront(_) => 3
    case PutUnlock => 2
    case PutPost => 1
    case TryWait => 8
    case Wait => 8
    case GetLock => 7
    case GetFirst => 6
    case UntieFront(_) => 5
    case UntieBack(_) => 4
    case InitNext(_) => 3
    case InitPrev(_) => 2
    case GetUnlock(_) => 1
  }

  /** The steps that thread `t` makes in actions `lo` to `hi - 1`. */
  function OwnSteps(acts: seq<Action>, t: Tid, lo: nat, hi: nat): nat
    requires lo <= hi <= |acts|
    decreases hi - lo
  {
    if lo == hi then 0 else OwnSteps(acts, t, lo, hi - 1) + if acts[hi - 1] == Run(t) then 1 else 0
  }

  /** A call makes at most eight steps of its own, whatever the others do: no step
      leads back. */
  lemma {:induction false} CallsEnd(run: seq<Fifo>, acts: seq<Action>, t: Tid, j: nat, i: nat)
    requires IsRun(run, acts) && j < i < |run| && acts[j].Invoke? && acts[j].t == t && InCall(run, t, j + 1, i)
    ensures OwnSteps(acts, t, j + 1, i) + StepsLeft(run[i].pcs[t]) <= 8
  {
    StepOf(run, acts, i - 1);
    if i > j + 1 { CallsEnd(run, acts, t, j, i - 1); }
  }
}
