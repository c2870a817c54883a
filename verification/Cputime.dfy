/** Microseconds to timer ticks in fixed point, as kernel/callout/mdx_cputime.c. */
module Cputime {

  const WORD: nat := 0x1_0000_0000
  const MILLION: nat := 1_000_000

  /** A count of ticks, or the panic for too many microseconds. */
  datatype Ticks = Ticks(value: nat) | Panic

  /** Ticks per microsecond, scaled by 2^32. */
  function Rate(freq: nat): nat { freq * WORD / MILLION }

  /** mdx_cputime_usec_to_ticks, for 32-bit arguments and a frequency that the
      timer registration accepts. */
  function UsecToTicks(freq: nat, usec: nat): Ticks
    requires 0 < freq < WORD && usec < WORD
  {
    RatePositive(freq);
    var k := Rate(freq);
    var maxval := (WORD - 1) * WORD;
    if maxval / k < usec then Panic else Ticks(k * usec / WORD)
  }

  lemma RatePositive(freq: nat)
    requires freq > 0
    ensures Rate(freq) > 0
  {
    assert freq * WORD >= WORD;
  }

  /** The bounds of a quotient, for any divisor. */
  lemma Quotient(x: nat, d: nat)
    requires d > 0
    ensures x / d * d <= x < x / d * d + d
  {
  }

  lemma Mono(a: int, b: int, c: nat)
    requires a <= b
    ensures a * c <= b * c
  {
  }

  lemma Cancels(a: int, b: int, w: nat)
    requires w > 0 && a * w < b * w
    ensures a < b
  {
    if b <= a { Mono(b, a, w); }
  }

  lemma Swap(a: int, b: int, c: int)
    ensures a * b * c == a * c * b
  {
  }

  /** With k = floor(f w / m) and t = floor(k u / w): t is at most f u / m, */
  lemma NotAbove(f: nat, u: nat, w: nat, m: nat, k: nat, t: nat)
    requires w > 0 && k * m <= f * w && t * w <= k * u
    ensures t * m <= f * u
  {
    Mono(t * w, k * u, m);
    Mono(k * m, f * w, u);
    Swap(t, w, m);
    Swap(k, u, m);
    Swap(f, w, u);
    assert t * m * w <= f * u * w;
    if f * u < t * m { MonoStrict(f * u, t * m, w); }
  }

  lemma MonoStrict(a: int, b: int, c: nat)
    requires a < b && c > 0
    ensures a * c < b * c
  {
  }

  /** ... and less than two below, for u up to w. */
  lemma NotFarBelow(f: nat, u: nat, w: nat, m: nat, k: nat, t: nat)
    requires w > 0 && m > 0 && 0 < u <= w && f * w < (k + 1) * m && k * u < (t + 1) * w
    ensures f * u < (t + 2) * m
  {
    MonoStrict(f * w, (k + 1) * m, u);
    Swap(k + 1, m, u);
    assert (k + 1) * u == k * u + u && (t + 2) * w == (t + 1) * w + w;
    Mono((k + 1) * u, (t + 2) * w, m);
    Swap(f, w, u);
    Swap(t + 2, w, m);
    Cancels(f * u, (t + 2) * m, w);
  }

  /** The result is the exact number of ticks rounded down, or one less. */
  lemma CloseToExact(freq: nat, usec: nat)
    requires 0 < freq < WORD && usec < WORD && UsecToTicks(freq, usec).Ticks?
    ensures var t := UsecToTicks(freq, usec).value;
            freq * usec / MILLION - 1 <= t <= freq * usec / MILLION && t < WORD
  {
    var k, maxval := Rate(freq), (WORD - 1) * WORD;
    var t := k * usec / WORD;
    Quotient(freq * WORD, MILLION);
    Quotient(k * usec, WORD);
    NotAbove(freq, usec, WORD, MILLION, k, t);
    if usec > 0 { NotFarBelow(freq, usec, WORD, MILLION, k, t); }
    RatePositive(freq);
    NoOverflow(k, usec, maxval);
  }

  /** The guard admits exactly the products that stay within `maxval`. */
  lemma NoOverflow(k: nat, usec: nat, maxval: nat)
    requires k > 0
    ensures maxval / k < usec <==> k * usec > maxval
  {
    Quotient(maxval, k);
    var d := maxval / k;
    if d < usec { assert k * usec >= k * (d + 1); }
    if d >= usec { assert k * usec <= k * d; }
  }

  /** It panics only when the exact number of ticks is beyond 32 bits. */
  lemma PanicsOnlyBeyond(freq: nat, usec: nat)
    requires 0 < freq < WORD && usec < WORD && UsecToTicks(freq, usec).Panic?
    ensures freq * usec > (WORD - 1) * MILLION
  {
    RatePositive(freq);
    NoOverflow(Rate(freq), usec, (WORD - 1) * WORD);
    Quotient(freq * WORD, MILLION);
    Beyond(freq, usec, WORD, MILLION, Rate(freq), WORD - 1);
  }

  lemma Beyond(f: nat, u: nat, w: nat, m: nat, k: nat, top: nat)
    requires w > 0 && m > 0 && k * m <= f * w && k * u > top * w
    ensures f * u > top * m
  {
    MonoStrict(top * w, k * u, m);
    Mono(k * m, f * w, u);
    Swap(top, w, m);
    Swap(k, u, m);
    Swap(f, w, u);
    Cancels(top * m, f * u, w);
  }
}
