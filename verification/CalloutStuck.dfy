/** Callbacks that come when mi_tmr_start asked for them, on a counter that
    starts over at `maxcnt`. */
module CalloutStuck {
  import opened CalloutSpec
  import opened CalloutClock
  import opened CalloutSteps
  import opened CalloutRuns

  /** After a whole period the counter reads the same, and get_elapsed sees nothing. */
  lemma SamePlace(cfg: Config, t0: nat)
    requires cfg.Valid() && cfg.period == cfg.maxcnt
    ensures Count(t0 + cfg.maxcnt, cfg.period) == Count(t0, cfg.period) && Seen(cfg, t0, t0 + cfg.maxcnt) == 0
  {
    CountLater(t0, cfg.maxcnt, cfg.period);
    assert Count(cfg.maxcnt, cfg.period) == Count(0, cfg.period);
  }

  /** The interrupt is the one that was armed when the counter was saved. */
  ghost predicate JustArmed(cfg: Config, s: Sys) {
    && Inv(cfg, s) && s.core.mode.Running? && s.core.q != [] && s.clock == s.t0
    && s.core.armed == Started(cfg, s.t0, s.core.q[0].ticks)
  }

  /** The callback that it raises fires the first callout if and only if that was
      due in less than `maxcnt` ticks. */
  lemma OnTimeFires(cfg: Config, s: Sys)
    requires JustArmed(cfg, s) && cfg.period == cfg.maxcnt
    ensures FiredBy(cfg, s.core, s.core.armed.time) != [] <==> s.core.q[0].ticks < cfg.maxcnt
  {
    if s.core.q[0].ticks < cfg.maxcnt {
      SeenIsTrueTime(cfg, s.t0, s.core.armed.time);
    } else {
      SamePlace(cfg, s.t0);
    }
  }

  /** A callback that sees no time pass. */
  lemma UnseenTick(cfg: Config, c: Core, now: nat)
    requires CoreOk(cfg, c) && c.mode.Running? && c.q != [] && c.q[0].ticks > 0 && Count(now, cfg.period) == c.saved
    ensures FiredBy(cfg, c, now) == [] && TickStep(cfg, c, now) == c.(armed := Started(cfg, now, c.q[0].ticks))
  {
    assert DueCount(c.q, 0) == 0 && Left(c.q, 0) == c.q;
  }

  /** Otherwise it leaves everything as it was, a period later. */
  lemma NoProgress(cfg: Config, s: Sys)
    requires JustArmed(cfg, s) && cfg.period == cfg.maxcnt && s.core.q[0].ticks >= cfg.maxcnt
    ensures var now, s' := s.t0 + cfg.maxcnt, Step(cfg, s, Tick(s.t0 + cfg.maxcnt));
            && s.core.armed == At(now) && FiredBy(cfg, s.core, now) == [] && JustArmed(cfg, s')
            && s' == Sys(s.core.(armed := At(now + cfg.maxcnt)), now, s.due, now)
  {
    var now := s.t0 + cfg.maxcnt;
    SamePlace(cfg, s.t0);
    UnseenTick(cfg, s.core, now);
    StepKeepsInv(cfg, s, Tick(now));
  }

  /** A set of `ticks`, and then `n` callbacks, a period apart. */
  ghost predicate StuckRun(cfg: Config, run: seq<Sys>, evs: seq<Event>, ticks: nat, n: nat) {
    && IsRun(cfg, run, evs) && |evs| == n + 1 && evs[0] == Set(1, ticks, 0)
    && (forall i: nat | 0 < i <= n :: StuckAt(cfg, run, evs, i))
    && JustArmed(cfg, run[n + 1]) && run[n + 1].core.q == [Entry(1, ticks)] && run[n + 1].t0 == n * cfg.maxcnt
  }

  /** Callback `i` comes when it was asked for, and fires nothing. */
  ghost predicate StuckAt(cfg: Config, run: seq<Sys>, evs: seq<Event>, i: nat)
    requires |run| == |evs| + 1 && i < |evs|
  {
    && StepAt(cfg, run, evs, i) && evs[i].Tick? && run[i].core.armed == At(evs[i].now)
    && FiredBy(cfg, run[i].core, evs[i].now) == []
  }

  /** A request of `maxcnt` ticks or more never fires, however many callbacks
      come, each exactly when it was asked for. */
  lemma {:induction false} NeverFires(cfg: Config, ticks: nat, n: nat) returns (run: seq<Sys>, evs: seq<Event>)
    requires cfg.Valid() && cfg.period == cfg.maxcnt <= ticks < WORD
    ensures StuckRun(cfg, run, evs, ticks, n)
  {
    if n == 0 {
      var s0 := Sys(Core([], Ready, 0, Off), 0, map[], 0);
      evs := [Set(1, ticks, 0)];
      run := [s0, Step(cfg, s0, evs[0])];
      assert StepAt(cfg, run, evs, 0);
      InitInv(cfg, s0);
      StepKeepsInv(cfg, s0, evs[0]);
    } else {
      var run0, evs0 := NeverFires(cfg, ticks, n - 1);
      var s := run0[n];
      NoProgress(cfg, s);
      evs := evs0 + [Tick(s.t0 + cfg.maxcnt)];
      run := run0 + [Step(cfg, s, evs[n])];
      StuckLonger(cfg, run0, evs0, run, evs, ticks, n);
    }
  }

  lemma StuckLonger(cfg: Config, run0: seq<Sys>, evs0: seq<Event>, run: seq<Sys>, evs: seq<Event>, ticks: nat, n: nat)
    requires n > 0 && StuckRun(cfg, run0, evs0, ticks, n - 1)
    requires cfg.period == cfg.maxcnt <= ticks
    requires evs == evs0 + [Tick(run0[n].t0 + cfg.maxcnt)] && run == run0 + [Step(cfg, run0[n], evs[n])]
    ensures StuckRun(cfg, run, evs, ticks, n)
  {
    NoProgress(cfg, run0[n]);
    forall i: nat | i < |evs| ensures StepAt(cfg, run, evs, i) && (i > 0 ==> StuckAt(cfg, run, evs, i)) {
      if i < n {
        assert StepAt(cfg, run0, evs0, i);
        if i > 0 { assert StuckAt(cfg, run0, evs0, i); }
      }
    }
  }
}
