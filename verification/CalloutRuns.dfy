/** Whole runs of the callouts of one CPU, against true time. */
module CalloutRuns {
  import opened CalloutSpec
  import opened CalloutClock
  import opened CalloutSteps
  import Cputime

  datatype Event =
    | Set(id: Id, ticks: nat, now: nat)
    | Cancel(id: Id, now: nat)
    | Tick(now: nat)

  /** The timer with what only an observer knows: when the counter was saved, and
      when each callout may fire at the earliest, by its last request. */
  datatype Sys = Sys(core: Core, t0: nat, due: map<Id, nat>, clock: nat)

  predicate Queued(q: seq<Entry>, id: Id) { exists e <- q :: e.id == id }

  function IndexOf(q: seq<Entry>, id: Id): (k: nat)
    requires Queued(q, id)
    ensures k < |q| && q[k].id == id
  {
    if q[0].id == id then 0 else 1 + IndexOf(q[1..], id)
  }

  /** The set goes into the queue: neither refused nor fired on the spot. */
  predicate Accepted(s: Sys, ev: Event) {
    ev.Set? && !Queued(s.core.q, ev.id) && ev.ticks > 0
  }

  ghost predicate Enabled(cfg: Config, s: Sys, ev: Event) {
    CoreOk(cfg, s.core) && s.clock <= ev.now && (ev.Set? ==> ev.ticks < WORD)
  }

  ghost function Step(cfg: Config, s: Sys, ev: Event): Sys
    requires Enabled(cfg, s, ev)
  {
    match ev
    case Set(id, ticks, now) =>
      if Accepted(s, ev) then
        Sys(SetStep(cfg, s.core, id, ticks, now), if s.core.mode.Running? then s.t0 else now,
            s.due[id := now + ticks], now)
      else s.(clock := now)
    case Cancel(id, now) =>
      if Queued(s.core.q, id) then
        Sys(CancelStep(s.core, IndexOf(s.core.q, id)), s.t0, s.due, now)
      else s.(clock := now)
    case Tick(now) =>
      if s.core.q == [] then s.(clock := now)
      else
        Sys(TickStep(cfg, s.core, now), now, s.due, now)
  }

  /** The sum in mdx_callout_set_one stays a 32-bit word. */
  ghost predicate Fits(cfg: Config, s: Sys, ev: Event)
    requires Enabled(cfg, s, ev)
  {
    Accepted(s, ev) ==> ev.ticks + Offset(cfg, s.core, ev.now) < WORD
  }

  // -------------------------------------------------------------- the invariant

  /** Each callout is listed for a time no earlier than it may fire. */
  ghost predicate AllLate(ds: seq<Due>, due: map<Id, nat>) {
    forall d <- ds :: d.id in due && due[d.id] <= d.at
  }

  ghost predicate Inv(cfg: Config, s: Sys) {
    && CoreOk(cfg, s.core) && s.t0 <= s.clock
    && (s.core.mode.Running? ==> s.core.saved == Count(s.t0, cfg.period))
    && AllLate(Dues(s.core.q, Base(cfg, s.t0, s.clock)), s.due)
  }

  lemma {:induction false} ShiftedDues(q: seq<Entry>, b: int, b': int)
    ensures forall k | 0 <= k < |q| :: Dues(q, b')[k] == Due(q[k].id, Dues(q, b)[k].at + b' - b)
  {
    forall k | 0 <= k < |q| ensures Dues(q, b')[k] == Due(q[k].id, Dues(q, b)[k].at + b' - b) {
      DueAt(q, b, k);
      DueAt(q, b', k);
    }
  }

  lemma LaterBase(q: seq<Entry>, b: int, b': int, due: map<Id, nat>)
    requires b <= b' && AllLate(Dues(q, b), due)
    ensures AllLate(Dues(q, b'), due)
  {
    ShiftedDues(q, b, b');
    ShiftedDues(q, b, b);
    var ds, ds' := Dues(q, b), Dues(q, b');
    forall d | d in ds' ensures d.id in due && due[d.id] <= d.at {
      var k :| 0 <= k < |ds'| && ds'[k] == d;
      assert ds[k] in ds;
    }
  }

  /** Time passes. */
  lemma Wait(cfg: Config, s: Sys, now: nat)
    requires Inv(cfg, s) && s.clock <= now
    ensures Inv(cfg, s.(clock := now))
  {
    BaseGrows(cfg, s.t0, s.clock, now);
    LaterBase(s.core.q, Base(cfg, s.t0, s.clock), Base(cfg, s.t0, now), s.due);
  }

  lemma {:induction false} PlacedLate(ds: seq<Due>, x: Due, due: map<Id, nat>)
    requires AllLate(ds, due) && (forall d <- ds :: d.id != x.id) && x.at >= 0
    ensures AllLate(PlacedIn(ds, x), due[x.id := x.at])
  {
    if ds != [] && ds[0].at <= x.at {
      assert forall d <- ds[1..] :: d in ds;
      PlacedLate(ds[1..], x, due);
      assert ds[0] in ds;
    }
  }

  lemma NotAmong(q: seq<Entry>, b: int, id: Id)
    requires !Queued(q, id)
    ensures forall d <- Dues(q, b) :: d.id != id
  {
    ShiftedDues(q, b, b);
    forall d | d in Dues(q, b) ensures d.id != id {
      var k :| 0 <= k < |q| && Dues(q, b)[k] == d;
      assert q[k] in q;
    }
  }

  lemma InsertedLate(q: seq<Entry>, b: int, id: Id, ticks: nat, due: map<Id, nat>)
    requires AllLate(Dues(q, b), due) && !Queued(q, id) && b + ticks >= 0
    ensures AllLate(Dues(Inserted(q, id, ticks), b), due[id := b + ticks])
  {
    InsertedDues(q, b, id, ticks);
    NotAmong(q, b, id);
    PlacedLate(Dues(q, b), Due(id, b + ticks), due);
  }

  lemma DroppedLate(q: seq<Entry>, b: int, k: nat, due: map<Id, nat>)
    requires AllLate(Dues(q, b), due) && k < |q|
    ensures AllLate(Dues(Dropped(q, k), b), due)
  {
    DroppedDues(q, b, k);
    assert forall d <- Without(Dues(q, b), k) :: d in Dues(q, b);
  }

  lemma LeftLate(q: seq<Entry>, b: int, e: nat, due: map<Id, nat>)
    requires AllLate(Dues(q, b), due)
    ensures AllLate(Dues(Left(q, e), b + e), due)
  {
    WalkDues(q, b, e);
    assert forall d <- Dues(q, b)[DueCount(q, e)..] :: d in Dues(q, b);
  }

  lemma SetRunningCore(cfg: Config, c: Core, id: Id, ticks: nat, now: nat)
    requires CoreOk(cfg, c) && c.mode.Running? && ticks + Offset(cfg, c, now) < WORD
    ensures var c' := SetStep(cfg, c, id, ticks, now);
            && CoreOk(cfg, c') && c'.q == Inserted(c.q, id, ticks + Offset(cfg, c, now))
            && c'.mode.Running? && c'.saved == c.saved
  {
    SetKeepsOk(cfg, c, id, ticks, now);
  }

  lemma SetRunningDues(cfg: Config, s: Sys, id: Id, ticks: nat, now: nat)
    requires Inv(cfg, s) && s.clock <= now && s.core.mode.Running? && !Queued(s.core.q, id)
    ensures var e := Offset(cfg, s.core, now);
            AllLate(Dues(Inserted(s.core.q, id, ticks + e), Base(cfg, s.t0, now)), s.due[id := now + ticks])
  {
    Wait(cfg, s, now);
    InsertedLate(s.core.q, Base(cfg, s.t0, now), id, ticks + Offset(cfg, s.core, now), s.due);
  }

  lemma SetRunning(cfg: Config, s: Sys, ev: Event)
    requires Inv(cfg, s) && Enabled(cfg, s, ev) && Accepted(s, ev) && Fits(cfg, s, ev) && s.core.mode.Running?
    ensures Inv(cfg, Step(cfg, s, ev))
  {
    SetRunningCore(cfg, s.core, ev.id, ev.ticks, ev.now);
    SetRunningDues(cfg, s, ev.id, ev.ticks, ev.now);
  }

  lemma SetReady(cfg: Config, s: Sys, ev: Event)
    requires Inv(cfg, s) && Enabled(cfg, s, ev) && Accepted(s, ev) && s.core.mode.Ready?
    ensures Inv(cfg, Step(cfg, s, ev))
  {
    SetKeepsOk(cfg, s.core, ev.id, ev.ticks, ev.now);
    BaseStart(cfg, ev.now);
    InsertedLate([], ev.now, ev.id, ev.ticks, s.due);
  }

  lemma CancelKeepsInv(cfg: Config, s: Sys, ev: Event)
    requires Inv(cfg, s) && Enabled(cfg, s, ev) && ev.Cancel? && Queued(s.core.q, ev.id)
    ensures Inv(cfg, Step(cfg, s, ev))
  {
    var q, k, b := s.core.q, IndexOf(s.core.q, ev.id), Base(cfg, s.t0, ev.now);
    Wait(cfg, s, ev.now);
    CancelKeepsOk(cfg, s.core, k);
    DroppedLate(q, b, k, s.due);
  }

  lemma TickKeepsInv(cfg: Config, s: Sys, ev: Event)
    requires Inv(cfg, s) && Enabled(cfg, s, ev) && ev.Tick? && s.core.q != []
    ensures Inv(cfg, Step(cfg, s, ev))
  {
    var now := ev.now;
    Wait(cfg, s, now);
    TickKeepsOk(cfg, s.core, now);
    BaseStart(cfg, now);
    LeftLate(s.core.q, Base(cfg, s.t0, now), Seen(cfg, s.t0, now), s.due);
  }

  lemma StepKeepsInv(cfg: Config, s: Sys, ev: Event)
    requires Inv(cfg, s) && Enabled(cfg, s, ev) && Fits(cfg, s, ev)
    ensures Inv(cfg, Step(cfg, s, ev))
  {
    if Accepted(s, ev) {
      if s.core.mode.Running? { SetRunning(cfg, s, ev); } else { SetReady(cfg, s, ev); }
    } else if ev.Cancel? && Queued(s.core.q, ev.id) {
      CancelKeepsInv(cfg, s, ev);
    } else if ev.Tick? && s.core.q != [] {
      TickKeepsInv(cfg, s, ev);
    } else {
      Wait(cfg, s, ev.now);
    }
  }

  // ---------------------------------------------------------------- never early

  /** What a callback fires at `now` may fire. */
  lemma FiresNotEarly(cfg: Config, s: Sys, now: nat, f: Entry)
    requires Inv(cfg, s) && s.clock <= now && f in FiredBy(cfg, s.core, now)
    ensures f.id in s.due && s.due[f.id] <= now
  {
    var q, b, e := s.core.q, Base(cfg, s.t0, now), Seen(cfg, s.t0, now);
    Wait(cfg, s, now);
    WalkDues(q, b, e);
    var k :| 0 <= k < DueCount(q, e) && q[k] == f;
    DueAt(q, b, k);
    assert Dues(q, b)[k] in Dues(q, b);
  }

  /** The timer before its first use. */
  ghost predicate Init(cfg: Config, s: Sys) {
    cfg.Valid() && s.core == Core([], Ready, 0, Off) && s.t0 == s.clock && s.due == map[]
  }

  ghost predicate StepAt(cfg: Config, run: seq<Sys>, evs: seq<Event>, i: nat)
    requires |run| == |evs| + 1 && i < |evs|
  {
    Enabled(cfg, run[i], evs[i]) && run[i + 1] == Step(cfg, run[i], evs[i])
  }

  ghost predicate IsRun(cfg: Config, run: seq<Sys>, evs: seq<Event>) {
    && |run| == |evs| + 1 && Init(cfg, run[0])
    && forall i: nat | i < |evs| :: StepAt(cfg, run, evs, i)
  }

  ghost predicate FitsAt(cfg: Config, run: seq<Sys>, evs: seq<Event>, i: nat)
    requires |run| == |evs| + 1 && i < |evs|
  {
    Enabled(cfg, run[i], evs[i]) && Fits(cfg, run[i], evs[i])
  }

  /** No request of the run overflows a word. */
  ghost predicate AllFit(cfg: Config, run: seq<Sys>, evs: seq<Event>)
    requires |run| == |evs| + 1
  {
    forall i: nat | i < |evs| :: FitsAt(cfg, run, evs, i)
  }

  lemma InitInv(cfg: Config, s: Sys)
    requires Init(cfg, s)
    ensures Inv(cfg, s)
  {
  }

  lemma {:induction false} RunInv(cfg: Config, run: seq<Sys>, evs: seq<Event>, i: nat)
    requires IsRun(cfg, run, evs) && AllFit(cfg, run, evs) && i < |run|
    ensures Inv(cfg, run[i])
  {
    if i == 0 {
      InitInv(cfg, run[0]);
    } else {
      RunInv(cfg, run, evs, i - 1);
      assert StepAt(cfg, run, evs, i - 1);
      assert FitsAt(cfg, run, evs, i - 1);
      StepKeepsInv(cfg, run[i - 1], evs[i - 1]);
    }
  }

  /** The timer is never asked for more than the range of its counter. */
  lemma {:induction false} AlarmInRange(cfg: Config, run: seq<Sys>, evs: seq<Event>, i: nat)
    requires IsRun(cfg, run, evs) && i < |run| && run[i].core.armed.At?
    ensures run[i].core.armed.time <= run[i].clock + cfg.maxcnt
  {
    if i > 0 {
      assert StepAt(cfg, run, evs, i - 1);
      if run[i - 1].core.armed.At? { AlarmInRange(cfg, run, evs, i - 1); }
    }
  }

  /** Event `j` is the last request for `id` before event `i` that was queued. */
  ghost predicate LastRequest(run: seq<Sys>, evs: seq<Event>, i: nat, id: Id, j: nat)
    requires i <= |evs| < |run|
  {
    && j < i && Accepted(run[j], evs[j]) && evs[j].id == id
    && forall k: nat | j < k < i :: !RequestsAt(run, evs, k, id)
  }

  ghost predicate RequestsAt(run: seq<Sys>, evs: seq<Event>, k: nat, id: Id)
    requires k < |evs| < |run|
  {
    Accepted(run[k], evs[k]) && evs[k].id == id
  }

  /** The request behind a deadline. */
  lemma {:induction false} RequestOf(cfg: Config, run: seq<Sys>, evs: seq<Event>, i: nat, id: Id) returns (j: nat)
    requires IsRun(cfg, run, evs) && i < |run| && id in run[i].due
    ensures LastRequest(run, evs, i, id, j)
    ensures run[i].due[id] == evs[j].now + evs[j].ticks
  {
    assert i > 0;
    assert StepAt(cfg, run, evs, i - 1);
    if Accepted(run[i - 1], evs[i - 1]) && evs[i - 1].id == id {
      j := i - 1;
    } else {
      j := RequestOf(cfg, run, evs, i - 1, id);
    }
  }

  /** Over any run and any number of wraps of the counter, when a callout fires
      the ticks of the request that queued it have truly passed. */
  lemma NeverEarly(cfg: Config, run: seq<Sys>, evs: seq<Event>, i: nat, f: Entry) returns (j: nat)
    requires IsRun(cfg, run, evs) && AllFit(cfg, run, evs) && i < |evs| && evs[i].Tick?
    requires StepAt(cfg, run, evs, i) && f in FiredBy(cfg, run[i].core, evs[i].now)
    ensures LastRequest(run, evs, i, f.id, j)
    ensures evs[j].now + evs[j].ticks <= evs[i].now
  {
    RunInv(cfg, run, evs, i);
    FiresNotEarly(cfg, run[i], evs[i].now, f);
    j := RequestOf(cfg, run, evs, i, f.id);
  }

  /** For a request in microseconds: at most one tick before the exact time. */
  lemma NeverEarlyUsec(cfg: Config, run: seq<Sys>, evs: seq<Event>, i: nat, f: Entry, freq: nat, usec: nat)
    returns (j: nat)
    requires IsRun(cfg, run, evs) && AllFit(cfg, run, evs) && i < |evs| && evs[i].Tick?
    requires StepAt(cfg, run, evs, i) && f in FiredBy(cfg, run[i].core, evs[i].now)
    requires 0 < freq < WORD && usec < WORD
    ensures LastRequest(run, evs, i, f.id, j)
    ensures Cputime.UsecToTicks(freq, usec) == Cputime.Ticks.Ticks(evs[j].ticks) ==>
              evs[i].now - evs[j].now >= freq * usec / Cputime.MILLION - 1
  {
    j := NeverEarly(cfg, run, evs, i, f);
    if Cputime.UsecToTicks(freq, usec) == Cputime.Ticks.Ticks(evs[j].ticks) { Cputime.CloseToExact(freq, usec); }
  }

  /** Exactly the requests that fit a word are safe from firing early, whenever
      the callback comes. */
  lemma EarlyIffOverflow(cfg: Config, s: Sys, ev: Event)
    requires Inv(cfg, s) && Enabled(cfg, s, ev) && Accepted(s, ev) && s.core.mode.Running?
    ensures Fits(cfg, s, ev) <==>
            forall now: nat, f | now >= ev.now && f in FiredBy(cfg, Step(cfg, s, ev).core, now) && f.id == ev.id
              :: now >= ev.now + ev.ticks
  {
    var s' := Step(cfg, s, ev);
    if Fits(cfg, s, ev) {
      StepKeepsInv(cfg, s, ev);
      forall now: nat, f | now >= ev.now && f in FiredBy(cfg, s'.core, now) && f.id == ev.id
        ensures now >= ev.now + ev.ticks
      {
        FiresNotEarly(cfg, s', now, f);
      }
    } else {
      var f := OverflowFires(cfg, s, ev);
    }
  }

  /** A request that overflows is due at once. */
  lemma OverflowFires(cfg: Config, s: Sys, ev: Event) returns (f: Entry)
    requires Inv(cfg, s) && Enabled(cfg, s, ev) && Accepted(s, ev) && s.core.mode.Running? && !Fits(cfg, s, ev)
    ensures f in FiredBy(cfg, Step(cfg, s, ev).core, ev.now) && f.id == ev.id
  {
    var e := Offset(cfg, s.core, ev.now);
    OffsetBound(cfg, s.core, ev.now);
    f := InsertedIsDue(s.core.q, ev.id, Word(ev.ticks + e), e);
  }

  lemma {:induction false} InsertedIsDue(q: seq<Entry>, id: Id, ticks: nat, elapsed: nat) returns (f: Entry)
    requires ticks <= elapsed
    ensures var q' := Inserted(q, id, ticks);
            f in q'[..DueCount(q', elapsed)] && f.id == id
  {
    var q' := Inserted(q, id, ticks);
    if q == [] || q[0].ticks > ticks {
      f := Entry(id, ticks);
      assert q'[0] == f && DueCount(q', elapsed) >= 1;
      assert q'[..DueCount(q', elapsed)][0] == f;
    } else {
      f := InsertedIsDue(q[1..], id, ticks - q[0].ticks, elapsed - q[0].ticks);
      var r := Inserted(q[1..], id, ticks - q[0].ticks);
      assert q'[1..] == r;
      assert q'[..DueCount(q', elapsed)] == [q[0]] + r[..DueCount(r, elapsed - q[0].ticks)];
    }
  }

  /** Half the range of the counter after it was saved, the other half is asked for. */
  lemma OverflowStep(cfg: Config, s: Sys)
    requires cfg == Config(0xffff_ffff, 0x1_0000_0000)
    requires s == Sys(Core([Entry(1, 0x9000_0000)], Running, 0, At(0x9000_0000)), 0, map[1 := 0x9000_0000], 0)
    ensures var ev := Set(2, 0x8000_0000, 0x8000_0000);
            && Enabled(cfg, s, ev) && Accepted(s, ev) && CoreOk(cfg, Step(cfg, s, ev).core)
            && Step(cfg, s, ev).core.q == [Entry(2, 0), Entry(1, 0x9000_0000)]
            && Entry(2, 0) in FiredBy(cfg, Step(cfg, s, ev).core, 0x8000_0000)
  {
    var q, q' := [Entry(1, 0x9000_0000)], [Entry(2, 0), Entry(1, 0x9000_0000)];
    assert q[1..] == [] && Sum(q) == 0x9000_0000;
    assert q'[1..] == q && Inserted(q, 2, 0) == q';
    SetKeepsOk(cfg, s.core, 2, 0x8000_0000, 0x8000_0000);
    assert DueCount(q', 0x8000_0000) == 1 && q'[..1][0] == Entry(2, 0);
  }

  /** A run in which a callout fires 0x8000_0000 ticks too early. */
  lemma OverflowExample() returns (run: seq<Sys>, evs: seq<Event>)
    ensures evs == [Set(1, 0x9000_0000, 0), Set(2, 0x8000_0000, 0x8000_0000), Tick(0x8000_0000)]
    ensures var cfg := Config(0xffff_ffff, 0x1_0000_0000);
            && IsRun(cfg, run, evs) && 2 in run[2].due && run[2].due[2] == 0x1_0000_0000
            && StepAt(cfg, run, evs, 2) && Entry(2, 0) in FiredBy(cfg, run[2].core, 0x8000_0000)
  {
    var cfg := Config(0xffff_ffff, 0x1_0000_0000);
    evs := [Set(1, 0x9000_0000, 0), Set(2, 0x8000_0000, 0x8000_0000), Tick(0x8000_0000)];
    var s0 := Sys(Core([], Ready, 0, Off), 0, map[], 0);
    var s1 := Step(cfg, s0, evs[0]);
    OverflowStep(cfg, s1);
    var s2 := Step(cfg, s1, evs[1]);
    run := [s0, s1, s2, Step(cfg, s2, evs[2])];
    assert StepAt(cfg, run, evs, 0) && StepAt(cfg, run, evs, 1) && StepAt(cfg, run, evs, 2);
  }
}
