/** What virtionet_receive returns, whatever the device does meanwhile. */
module VirtioCalls {
  import opened VirtioRing
  import opened VirtioNet

  /** The driver is inside a call in the states `lo` to `hi`. */
  ghost predicate InCall(run: seq<Sys>, lo: nat, hi: nat)
    requires hi < |run|
  {
    forall k :: lo <= k <= hi ==> !run[k].pc.Outside?
  }

  /** At action `k` the driver reads the next entry that the device returned, for
      head `h` and `n` bytes: the packet's, cut to `maxlen`. */
  ghost predicate Reads(q: Queue, run: seq<Sys>, evs: seq<Event>, k: nat, maxlen: nat, h: nat, n: nat)
    requires |run| == |evs| + 1 && k < |evs|
  {
    && evs[k] == Driver && run[k].pc == ReadUsed(maxlen) && run[k].read < |run[k].useds|
    && var u := run[k].useds[run[k].read];
       && h == u.id && run[k + 1].read == run[k].read + 1
       && n == if u.len - q.header < maxlen then u.len - q.header else maxlen
  }

  /** The call that `j` invoked and `i` completed did what `reply` says. */
  ghost predicate Explained(q: Queue, run: seq<Sys>, evs: seq<Event>, j: nat, i: nat, maxlen: nat, reply: Reply)
    requires |run| == |evs| + 1 && i < |evs|
  {
    match reply
    case Nothing =>
      && run[i].pc == LoadUsedIdx(maxlen) && run[i].read == |run[i].useds|
      && run[i + 1].avails == run[i].avails && run[i + 1].read == run[i].read
    case Packet(h, n) =>
      && run[i + 1].avails == run[i].avails + [h]
      && exists k: nat :: j < k < i && Reads(q, run, evs, k, maxlen, h, n)
    case NoReply => false
  }

  /** What has happened since the call began, by where the driver is. */
  ghost predicate Progress(q: Queue, run: seq<Sys>, evs: seq<Event>, i: nat, j: nat, maxlen: nat, k: nat)
    requires |run| == |evs| + 1 && i < |run|
  {
    && j < i && evs[j] == Receive(maxlen) && InCall(run, j + 1, i)
    && match run[i].pc
       case Outside(_) => false
       case LoadUsedIdx(m) => m == maxlen
       case ReadUsed(m) => m == maxlen
       case StoreAvail(h, n) => j < k < i && Reads(q, run, evs, k, maxlen, h, n)
       case StoreAvailIdx(h, n) => j < k < i && Reads(q, run, evs, k, maxlen, h, n)
  }

  lemma ReadingStep(q: Queue, run: seq<Sys>, evs: seq<Event>, i: nat)
    requires IsRun(q, run, evs) && i < |evs| && evs[i] == Driver && run[i].pc.ReadUsed?
    ensures run[i + 1].pc.StoreAvail?
    ensures Reads(q, run, evs, i, run[i].pc.maxlen, run[i + 1].pc.head, run[i + 1].pc.len)
  {
    RunInv(q, run, evs, i);
    assert StepAt(q, run, evs, i);
    ReadsNext(q, run[i]);
  }

  lemma ProgressStep(q: Queue, run: seq<Sys>, evs: seq<Event>, i: nat, j: nat, maxlen: nat, k: nat) returns (k': nat)
    requires IsRun(q, run, evs) && i < |evs| && Progress(q, run, evs, i, j, maxlen, k) && !run[i + 1].pc.Outside?
    ensures Progress(q, run, evs, i + 1, j, maxlen, k')
  {
    assert StepAt(q, run, evs, i);
    k' := k;
    if evs[i] == Driver && run[i].pc.ReadUsed? {
      ReadingStep(q, run, evs, i);
      k' := i;
    }
  }

  lemma {:induction false} CallSoFar(q: Queue, run: seq<Sys>, evs: seq<Event>, i: nat)
    returns (j: nat, maxlen: nat, k: nat)
    requires IsRun(q, run, evs) && i < |run| && !run[i].pc.Outside?
    ensures Progress(q, run, evs, i, j, maxlen, k)
  {
    assert i > 0;
    assert StepAt(q, run, evs, i - 1);
    if evs[i - 1].Receive? {
      j, maxlen, k := i - 1, evs[i - 1].maxlen, 0;
    } else {
      j, maxlen, k := CallSoFar(q, run, evs, i - 1);
      k := ProgressStep(q, run, evs, i - 1, j, maxlen, k);
    }
  }

  /** When the driver looks at the used index it finds nothing if and only if it
      has read all that the device returned. */
  lemma NothingExactly(q: Queue, run: seq<Sys>, evs: seq<Event>, i: nat)
    requires IsRun(q, run, evs) && i < |evs| && evs[i] == Driver && run[i].pc.LoadUsedIdx?
    ensures run[i + 1].pc == Outside(Nothing) <==> run[i].read == |run[i].useds|
    ensures run[i + 1].pc == ReadUsed(run[i].pc.maxlen) <==> run[i].read < |run[i].useds|
  {
    RunInv(q, run, evs, i);
    assert StepAt(q, run, evs, i);
    LoadKeepsInv(q, run[i]);
  }

  /** A call that returns a packet read the next entry that the device returned,
      reports its bytes cut to the caller's buffer, and made the buffer available
      again; one that returns nothing had read all there was. */
  lemma ReplyExplained(q: Queue, run: seq<Sys>, evs: seq<Event>, i: nat)
    requires IsRun(q, run, evs) && i < |evs| && evs[i] == Driver && run[i + 1].pc.Outside?
    ensures exists j: nat, maxlen: nat ::
              && j < i && evs[j] == Receive(maxlen) && InCall(run, j + 1, i)
              && Explained(q, run, evs, j, i, maxlen, run[i + 1].pc.reply)
  {
    assert StepAt(q, run, evs, i);
    var j, maxlen, k := CallSoFar(q, run, evs, i);
    if run[i].pc.LoadUsedIdx? { NothingExactly(q, run, evs, i); }
    if run[i].pc.ReadUsed? { ReadingStep(q, run, evs, i); }
    assert Explained(q, run, evs, j, i, maxlen, run[i + 1].pc.reply);
  }

  /** How many accesses the driver still makes at most. */
  function StepsLeft(pc: Pc): nat {
    match pc
    case Outside(_) => 0
    case LoadUsedIdx(_) => 4
    case ReadUsed(_) => 3
    case StoreAvail(_, _) => 2
    case StoreAvailIdx(_, _) => 1
  }

  function OwnSteps(evs: seq<Event>, lo: nat, hi: nat): nat
    requires lo <= hi <= |evs|
    decreases hi - lo
  {
    if lo == hi then 0 else OwnSteps(evs, lo, hi - 1) + if evs[hi - 1] == Driver then 1 else 0
  }

  /** A call makes at most four accesses, whatever the device does. */
  lemma {:induction false} CallsEnd(q: Queue, run: seq<Sys>, evs: seq<Event>, j: nat, i: nat)
    requires IsRun(q, run, evs) && j < i < |run| && evs[j].Receive? && InCall(run, j + 1, i)
    ensures OwnSteps(evs, j + 1, i) + StepsLeft(run[i].pc) <= 4
  {
    assert StepAt(q, run, evs, i - 1);
    if i > j + 1 { CallsEnd(q, run, evs, j, i - 1); }
  }
}
