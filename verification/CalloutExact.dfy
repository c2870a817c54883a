/** Runs in which the callbacks come in time: the queue, the interrupt and the
    firing are exact. */
module CalloutExact {
  import opened CalloutSpec
  import opened CalloutClock
  import opened CalloutSteps
  import opened CalloutRuns

  /** Every request is shorter than the range of the counter, nothing happens
      later than that after the counter was saved, and a counter that only starts
      over after `maxcnt` has not done so since. */
  ghost predicate Punctual(cfg: Config, s: Sys, ev: Event)
    requires Enabled(cfg, s, ev)
  {
    && Fits(cfg, s, ev)
    && (Accepted(s, ev) ==> ev.ticks < cfg.maxcnt)
    && (s.core.mode.Running? ==> s.t0 <= ev.now < s.t0 + cfg.period && Faithful(cfg, s.t0, ev.now))
  }

  /** The deadlines in the queue are the requested ones, and none is far off. */
  ghost predicate Matches(ds: seq<Due>, due: map<Id, nat>, horizon: int) {
    forall d <- ds :: d.id in due && due[d.id] == d.at && d.at < horizon
  }

  /** The interrupt comes no later than the first deadline. */
  ghost predicate InTime(q: seq<Entry>, t0: nat, armed: Alarm) {
    q != [] ==> armed.At? && armed.time <= t0 + q[0].ticks
  }

  /** It comes at the first deadline. */
  ghost predicate OnTime(q: seq<Entry>, t0: nat, armed: Alarm) {
    q != [] ==> armed == At(t0 + q[0].ticks)
  }

  ghost predicate Exact(cfg: Config, s: Sys) {
    && CoreOk(cfg, s.core) && s.t0 <= s.clock
    && (s.core.mode.Running? ==> s.core.saved == Count(s.t0, cfg.period))
    && Matches(Dues(s.core.q, s.t0), s.due, s.clock + cfg.maxcnt)
    && InTime(s.core.q, s.t0, s.core.armed)
  }

  /** The timer runs exactly while callouts wait, for the first of them. */
  ghost predicate AlarmOnTime(s: Sys) {
    OnTime(s.core.q, s.t0, s.core.armed) && (s.core.mode.Running? <==> s.core.q != [])
  }

  lemma {:induction false} PlacedMatches(ds: seq<Due>, x: Due, due: map<Id, nat>, horizon: int)
    requires Matches(ds, due, horizon) && (forall d <- ds :: d.id != x.id) && 0 <= x.at < horizon
    ensures Matches(PlacedIn(ds, x), due[x.id := x.at], horizon)
  {
    if ds != [] && ds[0].at <= x.at {
      assert forall d <- ds[1..] :: d in ds;
      PlacedMatches(ds[1..], x, due, horizon);
      assert ds[0] in ds;
    }
  }

  lemma InsertedMatches(q: seq<Entry>, b: nat, id: Id, ticks: nat, due: map<Id, nat>, horizon: int)
    requires Matches(Dues(q, b), due, horizon) && !Queued(q, id) && b + ticks < horizon
    ensures Matches(Dues(Inserted(q, id, ticks), b), due[id := b + ticks], horizon)
  {
    InsertedDues(q, b, id, ticks);
    NotAmong(q, b, id);
    PlacedMatches(Dues(q, b), Due(id, b + ticks), due, horizon);
  }

  lemma FartherHorizon(ds: seq<Due>, due: map<Id, nat>, h: int, h': int)
    requires Matches(ds, due, h) && h <= h'
    ensures Matches(ds, due, h')
  {
  }

  /** At a punctual moment get_elapsed is the true time since the save. */
  lemma SeenExact(cfg: Config, s: Sys, ev: Event)
    requires Exact(cfg, s) && Enabled(cfg, s, ev) && Punctual(cfg, s, ev) && s.core.mode.Running?
    ensures Seen(cfg, s.t0, ev.now) == ev.now - s.t0
    ensures Elapsed(cfg.maxcnt, s.core.saved, Count(ev.now, cfg.period)) == ev.now - s.t0
  {
    SeenIsTrueTime(cfg, s.t0, ev.now);
  }

  lemma SetIs(cfg: Config, s: Sys, ev: Event)
    requires Exact(cfg, s) && Enabled(cfg, s, ev) && Punctual(cfg, s, ev) && Accepted(s, ev) && s.core.mode.Running?
    ensures var s', q' := Step(cfg, s, ev), Inserted(s.core.q, ev.id, ev.ticks + (ev.now - s.t0));
            && s'.core.q == q' && s'.core.mode.Running? && s'.core.saved == s.core.saved && s'.t0 == s.t0
            && s'.due == s.due[ev.id := ev.now + ev.ticks] && s'.clock == ev.now && CoreOk(cfg, s'.core)
            && s'.core.armed == (if q'[0].id == ev.id then Started(cfg, ev.now, ev.ticks) else s.core.armed)
  {
    SeenExact(cfg, s, ev);
    SetKeepsOk(cfg, s.core, ev.id, ev.ticks, ev.now);
  }

  lemma SetQueue(cfg: Config, q: seq<Entry>, t0: nat, clock: nat, now: nat, id: Id, ticks: nat, due: map<Id, nat>)
    requires Matches(Dues(q, t0), due, clock + cfg.maxcnt) && !Queued(q, id) && t0 <= clock <= now
    requires ticks < cfg.maxcnt
    ensures Matches(Dues(Inserted(q, id, ticks + (now - t0)), t0), due[id := now + ticks], now + cfg.maxcnt)
  {
    FartherHorizon(Dues(q, t0), due, clock + cfg.maxcnt, now + cfg.maxcnt);
    InsertedMatches(q, t0, id, ticks + (now - t0), due, now + cfg.maxcnt);
  }

  lemma SetAlarm(cfg: Config, q: seq<Entry>, t0: nat, now: nat, id: Id, ticks: nat, armed: Alarm)
    requires !Queued(q, id) && t0 <= now && ticks < cfg.maxcnt && InTime(q, t0, armed)
    ensures var q' := Inserted(q, id, ticks + (now - t0));
            && q' != []
            && var armed' := if q'[0].id == id then Started(cfg, now, ticks) else armed;
               InTime(q', t0, armed') && (OnTime(q, t0, armed) ==> OnTime(q', t0, armed'))
  {
    InsertedFront(q, id, ticks + (now - t0));
  }

  lemma SetMatches(cfg: Config, s: Sys, ev: Event)
    requires Exact(cfg, s) && Enabled(cfg, s, ev) && Punctual(cfg, s, ev) && Accepted(s, ev) && s.core.mode.Running?
    ensures var s' := Step(cfg, s, ev); Matches(Dues(s'.core.q, s'.t0), s'.due, s'.clock + cfg.maxcnt)
  {
    SetIs(cfg, s, ev);
    SetQueue(cfg, s.core.q, s.t0, s.clock, ev.now, ev.id, ev.ticks, s.due);
  }

  lemma SetOnTime(cfg: Config, s: Sys, ev: Event)
    requires Exact(cfg, s) && Enabled(cfg, s, ev) && Punctual(cfg, s, ev) && Accepted(s, ev) && s.core.mode.Running?
    ensures var s' := Step(cfg, s, ev);
            InTime(s'.core.q, s'.t0, s'.core.armed) && (AlarmOnTime(s) ==> AlarmOnTime(s'))
  {
    SetIs(cfg, s, ev);
    SetAlarm(cfg, s.core.q, s.t0, ev.now, ev.id, ev.ticks, s.core.armed);
  }

  lemma SetExact(cfg: Config, s: Sys, ev: Event)
    requires Exact(cfg, s) && Enabled(cfg, s, ev) && Punctual(cfg, s, ev) && Accepted(s, ev) && s.core.mode.Running?
    ensures Exact(cfg, Step(cfg, s, ev)) && (AlarmOnTime(s) ==> AlarmOnTime(Step(cfg, s, ev)))
  {
    SetIs(cfg, s, ev);
    SetMatches(cfg, s, ev);
    SetOnTime(cfg, s, ev);
  }

  lemma InsertedFront(q: seq<Entry>, id: Id, ticks: nat)
    requires !Queued(q, id)
    ensures var q' := Inserted(q, id, ticks);
            q' != [] && if q'[0].id == id then q'[0].ticks == ticks else q != [] && q'[0] == q[0]
  {
    if q != [] { assert q[0] in q; }
  }

  lemma FirstSetExact(cfg: Config, s: Sys, ev: Event)
    requires Exact(cfg, s) && Enabled(cfg, s, ev) && Punctual(cfg, s, ev) && Accepted(s, ev) && s.core.mode.Ready?
    ensures Exact(cfg, Step(cfg, s, ev)) && AlarmOnTime(Step(cfg, s, ev))
  {
    SetKeepsOk(cfg, s.core, ev.id, ev.ticks, ev.now);
    InsertedMatches([], ev.now, ev.id, ev.ticks, s.due, ev.now + cfg.maxcnt);
  }

  lemma LeftMatches(q: seq<Entry>, b: nat, e: nat, due: map<Id, nat>, horizon: int)
    requires Matches(Dues(q, b), due, horizon)
    ensures Matches(Dues(Left(q, e), b + e), due, horizon)
    ensures Left(q, e) != [] ==> b + e + Left(q, e)[0].ticks < horizon
  {
    WalkDues(q, b, e);
    assert forall d <- Dues(q, b)[DueCount(q, e)..] :: d in Dues(q, b);
    if Left(q, e) != [] { assert Dues(Left(q, e), b + e)[0] in Dues(Left(q, e), b + e); }
  }

  lemma TickExact(cfg: Config, s: Sys, ev: Event)
    requires Exact(cfg, s) && Enabled(cfg, s, ev) && Punctual(cfg, s, ev) && ev.Tick? && s.core.q != []
    ensures Exact(cfg, Step(cfg, s, ev)) && AlarmOnTime(Step(cfg, s, ev))
  {
    var q, now, e := s.core.q, ev.now, ev.now - s.t0;
    SeenExact(cfg, s, ev);
    TickKeepsOk(cfg, s.core, now);
    FartherHorizon(Dues(q, s.t0), s.due, s.clock + cfg.maxcnt, now + cfg.maxcnt);
    LeftMatches(q, s.t0, e, s.due, now + cfg.maxcnt);
  }

  /** Cancelling changes no deadline; the interrupt may come too early then. */
  lemma CancelExact(cfg: Config, s: Sys, ev: Event)
    requires Exact(cfg, s) && Enabled(cfg, s, ev) && ev.Cancel? && Queued(s.core.q, ev.id)
    ensures Exact(cfg, Step(cfg, s, ev))
  {
    var q, k := s.core.q, IndexOf(s.core.q, ev.id);
    CancelKeepsOk(cfg, s.core, k);
    DroppedDues(q, s.t0, k);
    FartherHorizon(Dues(q, s.t0), s.due, s.clock + cfg.maxcnt, ev.now + cfg.maxcnt);
    assert forall d <- Without(Dues(q, s.t0), k) :: d in Dues(q, s.t0);
  }

  lemma StepExact(cfg: Config, s: Sys, ev: Event)
    requires Exact(cfg, s) && Enabled(cfg, s, ev) && Punctual(cfg, s, ev)
    ensures Exact(cfg, Step(cfg, s, ev))
    ensures AlarmOnTime(s) && !ev.Cancel? ==> AlarmOnTime(Step(cfg, s, ev))
  {
    if Accepted(s, ev) {
      if s.core.mode.Running? { SetExact(cfg, s, ev); } else { FirstSetExact(cfg, s, ev); }
    } else if ev.Cancel? && Queued(s.core.q, ev.id) {
      CancelExact(cfg, s, ev);
    } else if ev.Tick? && s.core.q != [] {
      TickExact(cfg, s, ev);
    } else {
      FartherHorizon(Dues(s.core.q, s.t0), s.due, s.clock + cfg.maxcnt, ev.now + cfg.maxcnt);
    }
  }

  ghost predicate PunctualAt(cfg: Config, run: seq<Sys>, evs: seq<Event>, i: nat)
    requires |run| == |evs| + 1 && i < |evs|
  {
    Enabled(cfg, run[i], evs[i]) && Punctual(cfg, run[i], evs[i])
  }

  ghost predicate PunctualRun(cfg: Config, run: seq<Sys>, evs: seq<Event>) {
    IsRun(cfg, run, evs) && forall i: nat | i < |evs| :: PunctualAt(cfg, run, evs, i)
  }

  ghost predicate NoCancel(evs: seq<Event>, n: nat)
    requires n <= |evs|
  {
    forall i | 0 <= i < n :: !evs[i].Cancel?
  }

  lemma {:induction false} RunExact(cfg: Config, run: seq<Sys>, evs: seq<Event>, i: nat)
    requires PunctualRun(cfg, run, evs) && i < |run|
    ensures Exact(cfg, run[i]) && (NoCancel(evs, i) ==> AlarmOnTime(run[i]))
  {
    if i > 0 {
      RunExact(cfg, run, evs, i - 1);
      assert StepAt(cfg, run, evs, i - 1);
      assert PunctualAt(cfg, run, evs, i - 1);
      StepExact(cfg, run[i - 1], evs[i - 1]);
    }
  }

  // -------------------------------------------------------------- what follows

  /** The interrupt is armed for no later than any deadline in the queue, and for
      the earliest one if nothing has been cancelled. */
  lemma ArmedForEarliest(cfg: Config, run: seq<Sys>, evs: seq<Event>, i: nat)
    requires PunctualRun(cfg, run, evs) && i < |run| && run[i].core.q != []
    ensures var s := run[i];
            && s.core.armed.At? && s.core.q[0].id in s.due
            && (forall e <- s.core.q :: e.id in s.due && s.core.armed.time <= s.due[e.id])
            && (NoCancel(evs, i) ==> s.due[s.core.q[0].id] == s.core.armed.time)
  {
    var s, ds := run[i], Dues(run[i].core.q, run[i].t0);
    RunExact(cfg, run, evs, i);
    DuesSorted(s.core.q, s.t0);
    ShiftedDues(s.core.q, s.t0, s.t0);
    assert ds[0] in ds;
    forall e | e in s.core.q ensures e.id in s.due && s.core.armed.time <= s.due[e.id] {
      var k :| 0 <= k < |s.core.q| && s.core.q[k] == e;
      assert ds[k] in ds;
    }
  }

  /** Exactly the first `n` callouts of the queue are due by `now`. */
  ghost predicate FirstDue(q: seq<Entry>, due: map<Id, nat>, now: int, n: nat) {
    && (forall k | 0 <= k < |q| :: q[k].id in due)
    && forall k | 0 <= k < |q| :: due[q[k].id] <= now <==> k < n
  }

  lemma WalkExact(q: seq<Entry>, b: nat, e: nat, due: map<Id, nat>, horizon: int)
    requires Matches(Dues(q, b), due, horizon)
    ensures FirstDue(q, due, b + e, DueCount(q, e))
  {
    var ds := Dues(q, b);
    ShiftedDues(q, b, b);
    WalkDues(q, b, e);
    assert forall k | 0 <= k < |q| :: ds[k] in ds && ds[k].id == q[k].id;
  }

  /** A punctual callback walks the queue by the true time since the save. */
  lemma TickIs(cfg: Config, s: Sys, ev: Event)
    requires Exact(cfg, s) && Enabled(cfg, s, ev) && Punctual(cfg, s, ev) && ev.Tick? && s.core.q != []
    ensures Step(cfg, s, ev).core.q == Left(s.core.q, ev.now - s.t0)
    ensures FiredBy(cfg, s.core, ev.now) == s.core.q[..DueCount(s.core.q, ev.now - s.t0)]
  {
    SeenExact(cfg, s, ev);
  }

  /** What a callback fires: exactly what is due by then, in the order of the
      deadlines; the rest keeps its deadlines. */
  ghost predicate FiresDue(q: seq<Entry>, t0: nat, due: map<Id, nat>, now: nat, fired: seq<Entry>, q': seq<Entry>) {
    && Sorted(Dues(q, t0)) && fired <= q && FirstDue(q, due, now, |fired|)
    && Dues(q', now) == Dues(q, t0)[|fired|..]
  }

  lemma WalkFiresDue(q: seq<Entry>, t0: nat, e: nat, due: map<Id, nat>, horizon: int)
    requires Matches(Dues(q, t0), due, horizon)
    ensures FiresDue(q, t0, due, t0 + e, q[..DueCount(q, e)], Left(q, e))
  {
    DuesSorted(q, t0);
    WalkLeft(q, t0, e);
    WalkExact(q, t0, e, due, horizon);
    Gathered(q, t0, due, t0 + e, DueCount(q, e), Left(q, e));
  }

  lemma Gathered(q: seq<Entry>, t0: nat, due: map<Id, nat>, now: nat, n: nat, q': seq<Entry>)
    requires n <= |q| && Sorted(Dues(q, t0)) && FirstDue(q, due, now, n)
    requires Dues(q', now) == Dues(q, t0)[n..]
    ensures FiresDue(q, t0, due, now, q[..n], q')
  {
  }

  lemma FiresExactly(cfg: Config, run: seq<Sys>, evs: seq<Event>, i: nat)
    requires PunctualRun(cfg, run, evs) && i < |evs| && evs[i].Tick? && StepAt(cfg, run, evs, i) && run[i].core.q != []
    ensures var s, now := run[i], evs[i].now;
            FiresDue(s.core.q, s.t0, s.due, now, FiredBy(cfg, s.core, now), run[i + 1].core.q)
    ensures run[i + 1].core.q == [] ==> run[i + 1].core.mode == Ready && run[i + 1].core.armed == Off
  {
    RunExact(cfg, run, evs, i);
    assert PunctualAt(cfg, run, evs, i);
    TickIs(cfg, run[i], evs[i]);
    WalkFiresDue(run[i].core.q, run[i].t0, evs[i].now - run[i].t0, run[i].due, run[i].clock + cfg.maxcnt);
  }

  // ------------------------------------------------------------ a tick is lost

  /** A 16-bit counter that starts over after 0xffff: 16 ticks asked for 8 ticks
      before it does are not up when they have passed, and one is left. */
  lemma OneTickLate() returns (run: seq<Sys>, evs: seq<Event>)
    ensures evs == [Set(1, 16, 0xfff8), Tick(0x1_0008)]
    ensures var cfg := Config(0xffff, 0x1_0000);
            && IsRun(cfg, run, evs) && AllFit(cfg, run, evs) && run[1].due == map[1 := 0x1_0008]
            && StepAt(cfg, run, evs, 1) && FiredBy(cfg, run[1].core, 0x1_0008) == []
            && !Faithful(cfg, 0xfff8, 0x1_0008) && run[2].core.q == [Entry(1, 1)]
  {
    var cfg := Config(0xffff, 0x1_0000);
    evs := [Set(1, 16, 0xfff8), Tick(0x1_0008)];
    var s0 := Sys(Core([], Ready, 0, Off), 0, map[], 0);
    var s1 := Step(cfg, s0, evs[0]);
    assert s1.core.q == [Entry(1, 16)];
    SeenIsTrueTime(cfg, 0xfff8, 0x1_0008);
    run := [s0, s1, Step(cfg, s1, evs[1])];
    assert StepAt(cfg, run, evs, 0) && StepAt(cfg, run, evs, 1);
    assert FitsAt(cfg, run, evs, 0) && FitsAt(cfg, run, evs, 1);
  }
}
