/** Setting, cancelling and firing as steps on the queue and the timer. */
module CalloutSteps {
  import opened CalloutSpec
  import opened CalloutClock

  /** mi_timer.state. */
  datatype Mode = Ready | Running | Exception

  /** The interrupt that the timer has been told to raise. */
  datatype Alarm = Off | At(time: nat)

  datatype Core = Core(q: seq<Entry>, mode: Mode, saved: nat, armed: Alarm)

  /** 32-bit arithmetic, for sums and differences of two words. */
  function Word(x: int): (w: nat)
    requires 0 <= x + WORD && x < 2 * WORD
    ensures w < WORD
  {
    if x < 0 then x + WORD else if x < WORD then x else x - WORD
  }

  /** mi_tmr_start. */
  function Started(cfg: Config, now: nat, ticks: nat): Alarm {
    At(now + if ticks > cfg.maxcnt then cfg.maxcnt else ticks)
  }

  ghost predicate CoreOk(cfg: Config, c: Core) {
    && cfg.Valid() && c.saved < cfg.period && Sum(c.q) < WORD
    && !c.mode.Exception? && (c.mode.Ready? ==> c.q == [])
  }

  /** The elapsed ticks that a request is counted on top of. */
  function Offset(cfg: Config, c: Core, now: nat): nat
    requires cfg.Valid() && c.saved <= cfg.maxcnt
  {
    if c.mode.Running? then Elapsed(cfg.maxcnt, c.saved, Count(now, cfg.period)) else 0
  }

  lemma OffsetBound(cfg: Config, c: Core, now: nat)
    requires cfg.Valid() && c.saved <= cfg.maxcnt
    ensures Offset(cfg, c, now) <= cfg.maxcnt
  {
  }

  /** mdx_callout_set_one. */
  function SetStep(cfg: Config, c: Core, id: Id, ticks: nat, now: nat): Core
    requires cfg.Valid() && c.saved <= cfg.maxcnt && ticks < WORD
  {
    OffsetBound(cfg, c, now);
    var e := Offset(cfg, c, now);
    var want := Word(ticks + e);
    var q := Inserted(c.q, id, want);
    if c.mode.Running? then
      c.(q := q, armed := if q[0].id == id then Started(cfg, now, Word(want - e)) else c.armed)
    else
      Core(q, Running, Count(now, cfg.period), Started(cfg, now, q[0].ticks))
  }

  /** mdx_callout_cancel_locked of the k-th callout. */
  function CancelStep(c: Core, k: nat): Core
    requires k < |c.q|
  {
    c.(q := Dropped(c.q, k))
  }

  /** mdx_callout_callback. */
  function TickStep(cfg: Config, c: Core, now: nat): Core
    requires cfg.Valid() && c.saved <= cfg.maxcnt
  {
    if c.q == [] then c
    else
      var count := Count(now, cfg.period);
      var q := Left(c.q, Elapsed(cfg.maxcnt, c.saved, count));
      if q == [] then Core(q, Ready, count, Off)
      else Core(q, Running, count, Started(cfg, now, q[0].ticks))
  }

  /** The callouts whose functions the callback calls, in order. */
  function FiredBy(cfg: Config, c: Core, now: nat): seq<Entry>
    requires cfg.Valid() && c.saved <= cfg.maxcnt
  {
    c.q[..DueCount(c.q, Elapsed(cfg.maxcnt, c.saved, Count(now, cfg.period)))]
  }

  lemma SetKeepsOk(cfg: Config, c: Core, id: Id, ticks: nat, now: nat)
    requires CoreOk(cfg, c) && ticks < WORD
    ensures CoreOk(cfg, SetStep(cfg, c, id, ticks, now))
  {
    OffsetBound(cfg, c, now);
    InsertedSum(c.q, id, Word(ticks + Offset(cfg, c, now)), WORD);
  }

  lemma TickKeepsOk(cfg: Config, c: Core, now: nat)
    requires CoreOk(cfg, c)
    ensures CoreOk(cfg, TickStep(cfg, c, now))
  {
    WalkDues(c.q, 0, Elapsed(cfg.maxcnt, c.saved, Count(now, cfg.period)));
  }

  lemma CancelKeepsOk(cfg: Config, c: Core, k: nat)
    requires CoreOk(cfg, c) && k < |c.q|
    ensures CoreOk(cfg, CancelStep(c, k))
  {
    DroppedSum(c.q, k);
  }
}
