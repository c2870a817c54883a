/** The callouts of one CPU, as kernel/callout/mdx_callout.c keeps them: a list in
    which each callout counts from the one before. */
module Callout {
  import opened CalloutSpec
  import opened CalloutClock
  import opened CalloutSteps
  import opened CalloutRuns

  datatype Callout = Callout(fired: bool, ticks: nat, ticksOrig: nat, active: bool)

  type Callouts = map<Id, Callout>

  function TicksOf(cs: Callouts, id: Id): nat {
    if id in cs then cs[id].ticks else 0
  }

  function Entries(queue: seq<Id>, cs: Callouts): (q: seq<Entry>)
    ensures |q| == |queue|
  {
    seq(|queue|, i requires 0 <= i < |queue| => Entry(queue[i], TicksOf(cs, queue[i])))
  }

  lemma EntriesQueued(queue: seq<Id>, cs: Callouts, id: Id)
    ensures Queued(Entries(queue, cs), id) <==> id in queue
  {
    var q := Entries(queue, cs);
    if id in queue {
      var k :| 0 <= k < |queue| && queue[k] == id;
      assert q[k] in q;
    }
  }

  ghost predicate Distinct(queue: seq<Id>) {
    forall i, j :: 0 <= i < j < |queue| ==> queue[i] != queue[j]
  }

  // ------------------------------------------------------------- walking the list

  /** One turn of the walk in mdx_callout_set_one. */
  lemma InsertedTurn(q: seq<Entry>, i: nat, id: Id, want: nat, rest: nat)
    requires i < |q| && q[i].ticks <= rest
    requires Inserted(q, id, want) == q[..i] + Inserted(q[i..], id, rest)
    ensures Inserted(q, id, want) == q[..i + 1] + Inserted(q[i + 1..], id, rest - q[i].ticks)
  {
    assert q[i..][0] == q[i] && q[i..][1..] == q[i + 1..];
    assert q[..i + 1] == q[..i] + [q[i]];
  }

  /** Where the walk ends that has come to `i`, and what is left of the ticks. */
  function Passed(q: seq<Entry>, i: nat, ticks: nat): (r: (nat, nat))
    requires i <= |q|
    ensures i <= r.0 <= |q| && r.1 <= ticks && (r.0 < |q| ==> q[r.0].ticks > r.1)
    decreases |q| - i
  {
    if i < |q| && q[i].ticks <= ticks then Passed(q, i + 1, ticks - q[i].ticks) else (i, ticks)
  }

  lemma {:induction false} PassedInserted(q: seq<Entry>, i: nat, id: Id, want: nat, rest: nat)
    requires i <= |q| && Inserted(q, id, want) == q[..i] + Inserted(q[i..], id, rest)
    ensures var r := Passed(q, i, rest);
            Inserted(q, id, want) == q[..r.0] + Inserted(q[r.0..], id, r.1)
    decreases |q| - i
  {
    if i < |q| && q[i].ticks <= rest {
      InsertedTurn(q, i, id, want, rest);
      PassedInserted(q, i + 1, id, want, rest - q[i].ticks);
    }
  }

  lemma WalkInserted(q: seq<Entry>, id: Id, want: nat)
    ensures var r := Passed(q, 0, want);
            Inserted(q, id, want) == q[..r.0] + Inserted(q[r.0..], id, r.1)
  {
    assert q[0..] == q && q[..0] == [];
    PassedInserted(q, 0, id, want, want);
  }

  /** The end of the walk. */
  lemma InsertedEnd(q: seq<Entry>, i: nat, id: Id, rest: nat)
    requires i <= |q| && (i < |q| ==> q[i].ticks > rest)
    ensures i == |q| ==> Inserted(q[i..], id, rest) == [Entry(id, rest)]
    ensures i < |q| ==> Inserted(q[i..], id, rest) == [Entry(id, rest), Entry(q[i].id, q[i].ticks - rest)] + q[i + 1..]
  {
    if i < |q| { assert q[i..][0] == q[i] && q[i..][1..] == q[i + 1..]; }
  }

  /** The list after the walk has stopped at position `i`. */
  lemma EntriesInserted(queue: seq<Id>, cs: Callouts, cs': Callouts, id: Id, i: nat, rest: nat)
    requires i <= |queue| && id !in queue && Distinct(queue) && TicksOf(cs', id) == rest
    requires forall x <- queue :: (i < |queue| && x == queue[i]) || TicksOf(cs', x) == TicksOf(cs, x)
    requires i < |queue| ==> rest <= TicksOf(cs, queue[i]) && TicksOf(cs', queue[i]) == TicksOf(cs, queue[i]) - rest
    ensures var q, q' := Entries(queue, cs), Entries(queue[..i] + [id] + queue[i..], cs');
            q' == q[..i] + if i == |queue| then [Entry(id, rest)]
                           else [Entry(id, rest), Entry(q[i].id, q[i].ticks - rest)] + q[i + 1..]
  {
    var queue' := queue[..i] + [id] + queue[i..];
    assert forall k | 0 <= k < i :: queue'[k] == queue[k];
    assert forall k | i < k < |queue'| :: queue'[k] == queue[k - 1];
  }

  /** Only the tick counts differ. */
  ghost predicate OnlyTicks(cs: Callouts, cs': Callouts) {
    cs'.Keys == cs.Keys && forall x <- cs :: cs'[x].ticks < WORD && cs'[x] == cs[x].(ticks := cs'[x].ticks)
  }

  /** The callouts after the walk: `id` with what is left, and the next one less that. */
  function Counted(queue: seq<Id>, cs: Callouts, id: Id, i: nat, rest: nat): Callouts
    requires id in cs && i <= |queue| && (i < |queue| ==> queue[i] in cs && rest <= cs[queue[i]].ticks)
  {
    var cs1 := cs[id := cs[id].(ticks := rest)];
    if i == |queue| then cs1 else cs1[queue[i] := cs[queue[i]].(ticks := cs[queue[i]].ticks - rest)]
  }

  lemma CountedEntries(queue: seq<Id>, cs: Callouts, id: Id, i: nat, want: nat, rest: nat)
    requires id in cs && id !in queue && Distinct(queue) && (forall x <- queue :: x in cs) && i <= |queue|
    requires i < |queue| ==> rest < cs[queue[i]].ticks
    requires var q := Entries(queue, cs); Inserted(q, id, want) == q[..i] + Inserted(q[i..], id, rest)
    ensures Entries(queue[..i] + [id] + queue[i..], Counted(queue, cs, id, i, rest)) ==
            Inserted(Entries(queue, cs), id, want)
  {
    EntriesInserted(queue, cs, Counted(queue, cs, id, i, rest), id, i, rest);
    InsertedEnd(Entries(queue, cs), i, id, rest);
  }

  lemma CountedTicks(queue: seq<Id>, cs: Callouts, id: Id, i: nat, rest: nat)
    requires id in cs && i <= |queue| && rest < WORD && (i < |queue| ==> queue[i] in cs && rest <= cs[queue[i]].ticks)
    requires (forall x <- cs :: cs[x].ticks < WORD) && id !in queue
    ensures OnlyTicks(cs, Counted(queue, cs, id, i, rest))
  {
  }

  /** The walk of mdx_callout_set_one puts the callout where Inserted does. */
  lemma EnqueueIs(queue: seq<Id>, cs: Callouts, id: Id)
    requires id in cs && id !in queue && Distinct(queue) && (forall x <- queue :: x in cs)
    requires forall x <- cs :: cs[x].ticks < WORD
    ensures var q := Entries(queue, cs);
            var (i, rest) := Passed(q, 0, cs[id].ticks);
            && (i < |queue| ==> queue[i] in cs && rest <= cs[queue[i]].ticks)
            && Entries(queue[..i] + [id] + queue[i..], Counted(queue, cs, id, i, rest)) == Inserted(q, id, cs[id].ticks)
            && OnlyTicks(cs, Counted(queue, cs, id, i, rest))
  {
    var q := Entries(queue, cs);
    var (i, rest) := Passed(q, 0, cs[id].ticks);
    WalkInserted(q, id, cs[id].ticks);
    CountedEntries(queue, cs, id, i, cs[id].ticks, rest);
    CountedTicks(queue, cs, id, i, rest);
  }

  lemma SumStep(q: seq<Entry>, i: nat)
    requires i < |q|
    ensures Sum(q[..i + 1]) == Sum(q[..i]) + q[i].ticks
  {
    assert q[..i + 1] == q[..i] + [q[i]];
    SumLast(q[..i], q[i]);
  }

  lemma {:induction false} SumLast(q: seq<Entry>, e: Entry)
    ensures Sum(q + [e]) == Sum(q) + e.ticks
  {
    if q == [] {
      assert (q + [e])[1..] == [];
    } else {
      SumLast(q[1..], e);
      assert (q + [e])[1..] == q[1..] + [e];
    }
  }

  /** Active callouts are exactly the queued ones, each queued once. */
  ghost predicate ListOk(queue: seq<Id>, cs: Callouts) {
    && Distinct(queue) && (forall id <- queue :: id in cs)
    && (forall id <- cs :: (cs[id].active <==> id in queue) && cs[id].ticks < WORD)
  }

  lemma SetListOk(queue: seq<Id>, cs: Callouts, cs': Callouts, id: Id, i: nat)
    requires ListOk(queue, cs) && id in cs && id !in queue && i <= |queue| && cs'.Keys == cs.Keys
    requires forall x <- cs :: cs'[x].ticks < WORD && cs'[x].active == (x == id || cs[x].active)
    ensures ListOk(queue[..i] + [id] + queue[i..], cs')
  {
    var queue' := queue[..i] + [id] + queue[i..];
    assert forall k | 0 <= k < i :: queue'[k] == queue[k];
    assert forall k | i < k < |queue'| :: queue'[k] == queue[k - 1];
    forall x | x in cs ensures x in queue' <==> x == id || x in queue {
      if x in queue {
        var k :| 0 <= k < |queue| && queue[k] == x;
        assert queue'[if k < i then k else k + 1] == x;
      }
      assert queue'[i] == id;
    }
  }

  function IndexIn(queue: seq<Id>, id: Id): (k: nat)
    requires id in queue
    ensures k < |queue| && queue[k] == id
  {
    if queue[0] == id then 0 else 1 + IndexIn(queue[1..], id)
  }

  lemma OneIndex(queue: seq<Id>, cs: Callouts, id: Id)
    requires Distinct(queue) && id in queue
    ensures Queued(Entries(queue, cs), id) && IndexOf(Entries(queue, cs), id) == IndexIn(queue, id)
  {
    EntriesQueued(queue, cs, id);
    var k := IndexOf(Entries(queue, cs), id);
    assert queue[k] == id;
  }

  /** The callouts after a cancellation. */
  function Uncounted(queue: seq<Id>, cs: Callouts, k: nat): Callouts
    requires k < |queue| && (forall x <- queue :: x in cs)
    requires k + 1 < |queue| ==> cs[queue[k + 1]].ticks + cs[queue[k]].ticks < WORD
  {
    var cs1 := if k + 1 == |queue| then cs
               else cs[queue[k + 1] := cs[queue[k + 1]].(ticks := cs[queue[k + 1]].ticks + cs[queue[k]].ticks)];
    cs1[queue[k] := cs1[queue[k]].(active := false)]
  }

  lemma UncountedTicks(queue: seq<Id>, cs: Callouts, k: nat, x: Id)
    requires k < |queue| && (forall x <- queue :: x in cs) && x != queue[k]
    requires k + 1 < |queue| ==> cs[queue[k + 1]].ticks + cs[queue[k]].ticks < WORD
    ensures TicksOf(Uncounted(queue, cs, k), x) ==
            TicksOf(cs, x) + if k + 1 < |queue| && x == queue[k + 1] then cs[queue[k]].ticks else 0
  {
  }

  lemma UncountedEntry(queue: seq<Id>, cs: Callouts, k: nat, j: nat)
    requires k < |queue| && (forall x <- queue :: x in cs) && Distinct(queue) && j < |queue| - 1
    requires k + 1 < |queue| ==> cs[queue[k + 1]].ticks + cs[queue[k]].ticks < WORD
    ensures Entries(queue[..k] + queue[k + 1..], Uncounted(queue, cs, k))[j] == Dropped(Entries(queue, cs), k)[j]
  {
    var queue' := queue[..k] + queue[k + 1..];
    var i := if j < k then j else j + 1;
    assert queue'[j] == queue[i] && queue[i] != queue[k];
    UncountedTicks(queue, cs, k, queue[i]);
    DroppedAt(Entries(queue, cs), k, j);
    if i != k + 1 { assert k + 1 < |queue| ==> queue[i] != queue[k + 1]; }
  }

  lemma UncountedEntries(queue: seq<Id>, cs: Callouts, k: nat)
    requires k < |queue| && (forall x <- queue :: x in cs) && Distinct(queue)
    requires k + 1 < |queue| ==> cs[queue[k + 1]].ticks + cs[queue[k]].ticks < WORD
    ensures Entries(queue[..k] + queue[k + 1..], Uncounted(queue, cs, k)) == Dropped(Entries(queue, cs), k)
  {
    var a, b := Entries(queue[..k] + queue[k + 1..], Uncounted(queue, cs, k)), Dropped(Entries(queue, cs), k);
    assert |a| == |queue| - 1 && |b| == |queue| - 1;
    forall j | 0 <= j < |a| ensures a[j] == b[j] { UncountedEntry(queue, cs, k, j); }
  }

  lemma CancelListOk(queue: seq<Id>, cs: Callouts, k: nat)
    requires ListOk(queue, cs) && k < |queue|
    requires k + 1 < |queue| ==> cs[queue[k + 1]].ticks + cs[queue[k]].ticks < WORD
    ensures ListOk(queue[..k] + queue[k + 1..], Uncounted(queue, cs, k))
  {
    RemovedIds(queue, k);
  }

  lemma RemovedIds(queue: seq<Id>, k: nat)
    requires Distinct(queue) && k < |queue|
    ensures Distinct(queue[..k] + queue[k + 1..])
    ensures forall x :: x in queue[..k] + queue[k + 1..] <==> x in queue && x != queue[k]
  {
    var queue' := queue[..k] + queue[k + 1..];
    assert forall j | 0 <= j < |queue'| :: queue'[j] == queue[if j < k then j else j + 1];
    forall x | x in queue && x != queue[k] ensures x in queue' {
      var j :| 0 <= j < |queue| && queue[j] == x;
      assert queue'[if j < k then j else j - 1] == x;
    }
  }

  /** Two neighbours are within the sum of all. */
  lemma {:induction false} PairWithinSum(q: seq<Entry>, k: nat)
    requires k + 1 < |q|
    ensures q[k].ticks + q[k + 1].ticks <= Sum(q)
  {
    if k > 0 { PairWithinSum(q[1..], k - 1); }
  }

  /** What the walk of the callback leaves. */
  datatype Walked = Walked(fired: seq<Id>, queue: seq<Id>, cs: Callouts)

  function AsFired(c: Callout): Callout { c.(ticks := 0, fired := true, active := false) }

  /** The walk of mdx_callout_callback. */
  function WalkAll(queue: seq<Id>, cs: Callouts, e: nat): Walked {
    if queue == [] || queue[0] !in cs then Walked([], queue, cs)
    else
      var c := queue[0];
      if e < cs[c].ticks then Walked([], queue, cs[c := cs[c].(ticks := cs[c].ticks - e)])
      else
        var r := WalkAll(queue[1..], cs[c := AsFired(cs[c])], e - cs[c].ticks);
        Walked([c] + r.fired, r.queue, r.cs)
  }

  /** Those of `ids` have fired, those of `rest` may count fewer ticks. */
  ghost predicate FiredIn(cs: Callouts, cs': Callouts, ids: seq<Id>, rest: seq<Id>) {
    && cs'.Keys == cs.Keys
    && forall x <- cs ::
         if x in ids then cs'[x] == cs[x].(ticks := 0, fired := true, active := false)
         else if x in rest then cs'[x] == cs[x].(ticks := cs'[x].ticks)
         else cs'[x] == cs[x]
  }

  lemma HeadGone(queue: seq<Id>)
    requires Distinct(queue) && queue != []
    ensures Distinct(queue[1..]) && forall x :: x in queue[1..] <==> x in queue && x != queue[0]
  {
    RemovedIds(queue, 0);
    assert queue[..0] + queue[1..] == queue[1..];
  }

  lemma HeadListOk(queue: seq<Id>, cs: Callouts)
    requires ListOk(queue, cs) && queue != []
    ensures ListOk(queue[1..], cs[queue[0] := AsFired(cs[queue[0]])])
  {
    HeadGone(queue);
  }

  lemma HeadEntries(queue: seq<Id>, cs: Callouts, c: Callout)
    requires Distinct(queue) && queue != []
    ensures Entries(queue[1..], cs[queue[0] := c]) == Entries(queue, cs)[1..]
  {
    assert forall j | 0 <= j < |queue| - 1 :: queue[1..][j] == queue[j + 1] && queue[j + 1] != queue[0];
  }

  /** The first callout that is not due keeps the remainder. */
  lemma StopEntries(queue: seq<Id>, cs: Callouts, e: nat)
    requires ListOk(queue, cs) && queue != [] && e < cs[queue[0]].ticks
    ensures var cs' := cs[queue[0] := cs[queue[0]].(ticks := cs[queue[0]].ticks - e)];
            ListOk(queue, cs') && Entries(queue, cs') == Left(Entries(queue, cs), e)
  {
    assert forall j | 0 < j < |queue| :: queue[j] != queue[0];
  }

  lemma {:induction false} WalkAllListOk(queue: seq<Id>, cs: Callouts, e: nat)
    requires ListOk(queue, cs)
    ensures var r := WalkAll(queue, cs, e); ListOk(r.queue, r.cs) && r.fired + r.queue == queue
    decreases |queue|
  {
    if queue != [] {
      var c := queue[0];
      if e < cs[c].ticks {
        StopEntries(queue, cs, e);
      } else {
        HeadListOk(queue, cs);
        WalkAllListOk(queue[1..], cs[c := AsFired(cs[c])], e - cs[c].ticks);
      }
    }
  }

  lemma {:induction false} WalkAllIsLeft(queue: seq<Id>, cs: Callouts, e: nat)
    requires ListOk(queue, cs)
    ensures var r, q := WalkAll(queue, cs, e), Entries(queue, cs);
            |r.fired| == DueCount(q, e) && Entries(r.queue, r.cs) == Left(q, e)
    decreases |queue|
  {
    if queue != [] {
      var c, q := queue[0], Entries(queue, cs);
      assert q[0] == Entry(c, cs[c].ticks);
      if e < cs[c].ticks {
        StopEntries(queue, cs, e);
      } else {
        var cs' := cs[c := AsFired(cs[c])];
        HeadListOk(queue, cs);
        HeadEntries(queue, cs, AsFired(cs[c]));
        WalkAllIsLeft(queue[1..], cs', e - cs[c].ticks);
        assert Left(q, e) == Left(q[1..], e - cs[c].ticks) && DueCount(q, e) == 1 + DueCount(q[1..], e - cs[c].ticks);
      }
    }
  }

  lemma {:induction false} WalkAllFires(queue: seq<Id>, cs: Callouts, e: nat)
    requires Distinct(queue) && (forall x <- queue :: x in cs)
    ensures var r := WalkAll(queue, cs, e);
            FiredIn(cs, r.cs, r.fired, r.queue) && forall x :: x in r.fired || x in r.queue <==> x in queue
    decreases |queue|
  {
    if queue != [] && e >= cs[queue[0]].ticks {
      HeadGone(queue);
      WalkAllFires(queue[1..], cs[queue[0] := AsFired(cs[queue[0]])], e - cs[queue[0]].ticks);
    }
  }

  class Timer {
    const cfg: Config
    /** callouts_list. */
    var queue: seq<Id>
    /** The callouts in memory, queued or not. */
    var callouts: Callouts
    var mode: Mode
    var saved: nat
    var armed: Alarm

    ghost function View(): Core
      reads this
    {
      Core(Entries(queue, callouts), mode, saved, armed)
    }

    ghost predicate Valid()
      reads this
    {
      CoreOk(cfg, View()) && ListOk(queue, callouts)
    }

    /** mdx_callout_register, with every callout initialised. */
    constructor (config: Config, ids: set<Id>)
      requires config.Valid()
      ensures Valid() && cfg == config && View() == Core([], Ready, 0, Off)
      ensures callouts.Keys == ids && forall id <- ids :: !callouts[id].fired && !callouts[id].active
    {
      cfg := config;
      queue, mode, saved, armed := [], Ready, 0, Off;
      callouts := map id | id in ids :: Callout(false, 0, 0, false);
    }

    /** mdx_callout_set_ticks_locked. */
    method Set(id: Id, ticks: nat, now: nat) returns (ok: bool)
      requires Valid() && id in callouts && ticks < WORD
      modifies this
      ensures Valid() && ok == !old(callouts[id].active)
      ensures !ok || ticks == 0 ==> View() == old(View())
      ensures !ok ==> callouts == old(callouts)
      ensures ok && ticks == 0 ==> callouts == old(callouts)[id := old(callouts[id]).(fired := true)]
      ensures ok && ticks > 0 ==> View() == SetStep(cfg, old(View()), id, ticks, now)
      ensures ok && ticks > 0 ==>
                callouts.Keys == old(callouts.Keys) && callouts[id].active && callouts[id].ticksOrig == ticks
                && callouts[id].fired == old(callouts[id].fired)
      ensures forall x <- old(callouts) | x != id ::
                x in callouts && callouts[x] == old(callouts)[x].(ticks := callouts[x].ticks)
    {
      if callouts[id].active {
        return false;
      }
      if ticks == 0 {
        callouts := callouts[id := callouts[id].(fired := true)];
        assert View().q == old(View()).q;
        return true;
      }
      callouts := callouts[id := callouts[id].(ticksOrig := ticks, ticks := ticks)];
      assert View().q == old(View()).q;
      ghost var i := SetOne(id, now);
      ghost var q := View().q;
      callouts := callouts[id := callouts[id].(active := true)];
      assert View().q == q;
      SetListOk(old(queue), old(callouts), callouts, id, i);
      SetKeepsOk(cfg, old(View()), id, ticks, now);
      ok := true;
    }

    /** mdx_callout_set_one. */
    method SetOne(id: Id, now: nat) returns (ghost i: nat)
      requires Valid() && id in callouts && id !in queue
      modifies this
      ensures View() == SetStep(cfg, old(View()), id, old(callouts[id].ticks), now)
      ensures i <= |old(queue)| && queue == old(queue)[..i] + [id] + old(queue)[i..]
      ensures OnlyTicks(old(callouts), callouts)
    {
      var elapsed: int := 0;
      if mode.Running? {
        elapsed := Elapsed(cfg.maxcnt, saved, Count(now, cfg.period));
        OffsetBound(cfg, View(), now);
        callouts := callouts[id := callouts[id].(ticks := Word(callouts[id].ticks + elapsed))];
      }
      assert Entries(queue, callouts) == Entries(queue, old(callouts));
      assert elapsed == Offset(cfg, old(View()), now) && callouts[id].ticks == Word(old(callouts[id].ticks) + elapsed);
      i := Enqueue(id);
      Start(id, elapsed, now);
    }

    /** The last part of mdx_callout_set_one: an interrupt for the first callout. */
    method Start(id: Id, elapsed: int, now: nat)
      requires cfg.Valid() && queue != [] && queue[0] in callouts && callouts[queue[0]].ticks < WORD
      requires 0 <= elapsed < WORD && (mode.Running? || elapsed == 0)
      modifies this`mode, this`saved, this`armed
      ensures var first := callouts[queue[0]].ticks;
              match old(mode)
              case Running =>
                mode == Running && saved == old(saved)
                && armed == if queue[0] == id then Started(cfg, now, Word(first - elapsed)) else old(armed)
              case Exception => mode == Exception && saved == old(saved) && armed == old(armed)
              case Ready => mode == Running && saved == Count(now, cfg.period) && armed == Started(cfg, now, first)
    {
      var first: int := callouts[queue[0]].ticks;
      match mode
      case Running =>
        if queue[0] == id {
          armed := Started(cfg, now, Word(first - elapsed));
        }
      case Exception =>
      case Ready =>
        mode, saved := Running, Count(now, cfg.period);
        armed := Started(cfg, now, first);
    }

    /** The callout goes behind all that are due no later. */
    method Enqueue(id: Id) returns (ghost pos: nat)
      requires id in callouts && id !in queue && Distinct(queue) && (forall x <- queue :: x in callouts)
      requires forall x <- callouts :: callouts[x].ticks < WORD
      modifies this`queue, this`callouts
      ensures View().q == Inserted(old(View()).q, id, old(callouts[id].ticks))
      ensures pos <= |old(queue)| && queue == old(queue)[..pos] + [id] + old(queue)[pos..]
      ensures OnlyTicks(old(callouts), callouts)
    {
      EnqueueIs(queue, callouts, id);
      var i := Walk(id, Entries(queue, callouts));
      ghost var rest := callouts[id].ticks;
      if i < |queue| {
        callouts := callouts[queue[i] := callouts[queue[i]].(ticks := callouts[queue[i]].ticks - callouts[id].ticks)];
      }
      assert callouts == Counted(queue, old(callouts), id, i, rest);
      queue := queue[..i] + [id] + queue[i..];
      pos := i;
    }

    /** The walk of mdx_callout_set_one: the callout counts down what it passes. */
    method Walk(id: Id, ghost q: seq<Entry>) returns (i: nat)
      requires id in callouts && |q| == |queue|
      requires forall k | 0 <= k < |queue| ::
                 queue[k] != id && queue[k] in callouts && q[k].ticks == callouts[queue[k]].ticks
      modifies this`callouts
      ensures id in callouts && (i, callouts[id].ticks) == Passed(q, 0, old(callouts[id].ticks))
      ensures callouts == old(callouts)[id := old(callouts[id]).(ticks := callouts[id].ticks)]
    {
      i := 0;
      while i < |queue| && callouts[queue[i]].ticks <= callouts[id].ticks
        invariant 0 <= i <= |queue| && id in callouts
        invariant callouts == old(callouts)[id := old(callouts[id]).(ticks := callouts[id].ticks)]
        invariant Passed(q, i, callouts[id].ticks) == Passed(q, 0, old(callouts[id].ticks))
      {
        callouts := callouts[id := callouts[id].(ticks := callouts[id].ticks - callouts[queue[i]].ticks)];
        i := i + 1;
      }
    }

    /** mdx_callout_cancel_locked. */
    method Cancel(id: Id) returns (ok: bool)
      requires Valid() && id in callouts
      modifies this
      ensures Valid() && ok == old(callouts[id].active) && callouts.Keys == old(callouts.Keys)
      ensures !ok ==> View() == old(View()) && callouts == old(callouts)
      ensures ok ==> Queued(old(View()).q, id) && View() == CancelStep(old(View()), IndexOf(old(View()).q, id))
      ensures ok ==> callouts[id] == old(callouts[id]).(active := false)
      ensures forall x <- old(callouts) | x != id :: callouts[x] == old(callouts)[x].(ticks := callouts[x].ticks)
    {
      if !callouts[id].active {
        return false;
      }
      var k := IndexIn(queue, id);
      OneIndex(queue, callouts, id);
      if k + 1 < |queue| { PairWithinSum(View().q, k); }
      CancelKeepsOk(cfg, View(), k);
      Unlink(id, k);
      ok := true;
    }

    /** The k-th callout leaves the list, and its delta goes to the next one. */
    method Unlink(id: Id, k: nat)
      requires ListOk(queue, callouts) && k < |queue| && queue[k] == id
      requires k + 1 < |queue| ==> callouts[queue[k + 1]].ticks + callouts[queue[k]].ticks < WORD
      modifies this`queue, this`callouts
      ensures ListOk(queue, callouts) && View().q == Dropped(old(View()).q, k)
      ensures callouts.Keys == old(callouts.Keys) && callouts[id] == old(callouts[id]).(active := false)
      ensures forall x <- old(callouts) | x != id :: callouts[x] == old(callouts)[x].(ticks := callouts[x].ticks)
    {
      UncountedEntries(queue, callouts, k);
      CancelListOk(queue, callouts, k);
      if k + 1 < |queue| {
        var n := queue[k + 1];
        callouts := callouts[n := callouts[n].(ticks := Word(callouts[n].ticks + callouts[id].ticks))];
      }
      callouts := callouts[id := callouts[id].(active := false)];
      assert callouts == Uncounted(queue, old(callouts), k);
      queue := queue[..k] + queue[k + 1..];
    }

    /** mdx_callout_ticks: what is left until the callout is due. */
    method Ticks(id: Id, now: nat) returns (val: nat)
      requires Valid() && id in callouts
      ensures !callouts[id].active ==> val == 0
      ensures callouts[id].active ==> Queued(View().q, id)
      ensures callouts[id].active ==>
                var at := Dues(View().q, 0)[IndexOf(View().q, id)].at;
                var left := at - Elapsed(cfg.maxcnt, saved, Count(now, cfg.period));
                val == if left < 0 then 0 else left
    {
      if !callouts[id].active {
        return 0;
      }
      OneIndex(queue, callouts, id);
      ghost var q, k := View().q, IndexOf(View().q, id);
      var elapsed := Elapsed(cfg.maxcnt, saved, Count(now, cfg.period));
      ghost var e := elapsed;
      DueAt(q, 0, k);
      val := 0;
      var i := 0;
      while queue[i] != id
        invariant 0 <= i <= k
        invariant if Sum(q[..i]) <= e then val == 0 && elapsed == e - Sum(q[..i])
                  else val == Sum(q[..i]) - e && elapsed == 0
        decreases k - i
      {
        SumStep(q, i);
        if elapsed >= callouts[queue[i]].ticks {
          elapsed := elapsed - callouts[queue[i]].ticks;
        } else {
          val := val + (callouts[queue[i]].ticks - elapsed);
          elapsed := 0;
        }
        i := i + 1;
      }
      SumStep(q, i);
      if elapsed < callouts[id].ticks {
        val := val + (callouts[id].ticks - elapsed);
      }
    }

    /** mdx_callout_callback. The functions of the fired callouts are called in
        the order of `fired`, and leave the queue alone. */
    method Callback(now: nat) returns (fired: seq<Id>)
      requires Valid()
      modifies this
      ensures Valid() && View() == TickStep(cfg, old(View()), now)
      ensures old(queue) == [] ==> fired == []
      ensures old(queue) != [] ==> |fired| == |FiredBy(cfg, old(View()), now)| && fired + queue == old(queue)
      ensures callouts.Keys == old(callouts.Keys)
      ensures forall x <- fired :: x in callouts && callouts[x].fired && !callouts[x].active && callouts[x].ticks == 0
                                   && callouts[x].ticksOrig == old(callouts)[x].ticksOrig
      ensures forall x <- queue :: x in callouts && callouts[x] == old(callouts)[x].(ticks := callouts[x].ticks)
      ensures forall x <- callouts | x !in fired && x !in queue :: callouts[x] == old(callouts)[x]
    {
      if queue == [] {
        return [];
      }
      var count := Count(now, cfg.period);
      var elapsed := Elapsed(cfg.maxcnt, saved, count);
      WalkAllListOk(queue, callouts, elapsed);
      WalkAllIsLeft(queue, callouts, elapsed);
      WalkAllFires(queue, callouts, elapsed);
      saved := count;
      mode := Exception;
      fired := Fire(elapsed);
      Rearm(now);
      TickKeepsOk(cfg, old(View()), now);
    }

    /** The walk of the callback: due callouts leave the head of the list. */
    method Fire(e: nat) returns (fired: seq<Id>)
      requires forall x <- queue :: x in callouts
      modifies this`queue, this`callouts
      ensures Walked(fired, queue, callouts) == WalkAll(old(queue), old(callouts), e)
    {
      var elapsed: nat := e;
      fired := [];
      while queue != [] && elapsed >= callouts[queue[0]].ticks
        invariant forall x <- queue :: x in callouts
        invariant var r := WalkAll(queue, callouts, elapsed);
                  WalkAll(old(queue), old(callouts), e) == Walked(fired + r.fired, r.queue, r.cs)
        decreases |queue|
      {
        var c := queue[0];
        ghost var r := WalkAll(queue, callouts, elapsed);
        elapsed := elapsed - callouts[c].ticks;
        queue := queue[1..];
        callouts := callouts[c := AsFired(callouts[c])];
        fired := fired + [c];
        assert r.fired == [c] + WalkAll(queue, callouts, elapsed).fired;
      }
      if queue != [] {
        var c := queue[0];
        callouts := callouts[c := callouts[c].(ticks := callouts[c].ticks - elapsed)];
      }
    }

    /** The end of the callback: an interrupt for the first callout left, or none. */
    method Rearm(now: nat)
      requires queue != [] ==> queue[0] in callouts
      modifies this`mode, this`armed
      ensures queue == [] ==> mode == Ready && armed == Off
      ensures queue != [] ==> mode == Running && armed == Started(cfg, now, callouts[queue[0]].ticks)
    {
      if queue != [] {
        mode := Running;
        armed := Started(cfg, now, callouts[queue[0]].ticks);
      } else {
        mode, armed := Ready, Off;
      }
    }
  }
}
