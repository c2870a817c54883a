/** The free-running counter behind the callouts, and what get_elapsed makes of it. */
module CalloutClock {
  import opened Modular

  /** `maxcnt` as registered; the counter itself starts over every `period` ticks. */
  datatype Config = Config(maxcnt: nat, period: nat) {
    predicate Valid() {
      0 < maxcnt < 0x1_0000_0000 && maxcnt <= period <= maxcnt + 1
    }
  }

  /** The reading of the counter at a time. */
  function Count(now: nat, period: nat): (c: nat)
    requires period > 0
    ensures c < period && c <= now
  {
    SlotOf(now, period)
  }

  /** get_elapsed. */
  function Elapsed(maxcnt: nat, saved: nat, count: nat): nat
    requires saved <= maxcnt
  {
    if count == saved then 0
    else if count > saved then count - saved
    else maxcnt - saved + count
  }

  /** The ticks that get_elapsed sees at `now`, with the counter saved at `t0`. */
  function Seen(cfg: Config, t0: nat, now: nat): nat
    requires cfg.Valid()
  {
    Elapsed(cfg.maxcnt, Count(t0, cfg.period), Count(now, cfg.period))
  }

  /** The time from which the deltas appear to count at `now`. */
  function Base(cfg: Config, t0: nat, now: nat): int
    requires cfg.Valid()
  {
    now - Seen(cfg, t0, now)
  }

  lemma {:induction false} CountLater(t: nat, d: nat, period: nat)
    requires period > 0
    ensures Count(t + d, period) ==
            var c := Count(t, period) + Count(d, period);
            if c < period then c else c - period
  {
    if d >= period {
      CountLater(t, d - period, period);
    } else if t >= period {
      CountLater(t - period, d, period);
    } else if t + d >= period {
      assert SlotOf(t + d, period) == SlotOf(t + d - period, period);
    }
  }

  /** Whole periods in a time only grow, and by a period at least. */
  lemma {:induction false} WholePeriods(d: nat, d': nat, period: nat)
    requires period > 0 && d <= d'
    ensures var w, w' := d - Count(d, period), d' - Count(d', period);
            w == w' || w + period <= w'
  {
    if d >= period {
      WholePeriods(d - period, d' - period, period);
    } else if d' >= period {
      WholePeriods(0, d' - period, period);
    }
  }

  lemma BaseIs(cfg: Config, t0: nat, now: nat)
    requires cfg.Valid() && t0 <= now
    ensures var d, p := now - t0, cfg.period;
            Base(cfg, t0, now) == t0 + (d - Count(d, p))
              + if Count(t0, p) + Count(d, p) < p then 0 else p - cfg.maxcnt
  {
    CountLater(t0, now - t0, cfg.period);
  }

  /** Periods lost to get_elapsed stay lost: the base never moves back. */
  lemma BaseGrows(cfg: Config, t0: nat, now: nat, now': nat)
    requires cfg.Valid() && t0 <= now <= now'
    ensures t0 <= Base(cfg, t0, now) <= Base(cfg, t0, now')
  {
    BaseIs(cfg, t0, now);
    BaseIs(cfg, t0, now');
    WholePeriods(now - t0, now' - t0, cfg.period);
  }

  /** The counter starts over at `maxcnt`, or has not started over since `t0`. */
  predicate Faithful(cfg: Config, t0: nat, now: nat)
    requires cfg.Valid() && t0 <= now
  {
    cfg.period == cfg.maxcnt || Count(t0, cfg.period) + (now - t0) < cfg.period
  }

  /** Within one period get_elapsed is the true time exactly when the counter
      starts over at `maxcnt` or has not started over; else it is one tick short. */
  lemma SeenIsTrueTime(cfg: Config, t0: nat, now: nat)
    requires cfg.Valid() && t0 <= now < t0 + cfg.period
    ensures Seen(cfg, t0, now) == now - t0 <==> Faithful(cfg, t0, now)
    ensures Seen(cfg, t0, now) == now - t0 - if Faithful(cfg, t0, now) then 0 else 1
  {
    BaseIs(cfg, t0, now);
  }

  lemma BaseStart(cfg: Config, t0: nat)
    requires cfg.Valid()
    ensures Base(cfg, t0, t0) == t0
  {
  }
}
