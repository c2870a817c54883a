/** Remainders by counting down, and powers of two. */
module Modular {

  /** The slot of a ticket in a ring: its remainder by the ring's size. */
  function SlotOf(ticket: nat, size: nat): (i: nat)
    requires size > 0
    ensures i < size && i <= ticket
  {
    if ticket < size then ticket else SlotOf(ticket - size, size)
  }

  /** Two tickets less than a ring apart use different slots. */
  lemma {:induction false} SlotsApart(i: nat, j: nat, n: nat)
    requires i < j < i + n
    ensures SlotOf(i, n) != SlotOf(j, n)
  {
    if i >= n {
      SlotsApart(i - n, j - n, n);
    }
  }

  lemma {:induction false} SlotPeriod(x: nat, n: nat, j: nat)
    requires n > 0
    ensures SlotOf(x + n * j, n) == SlotOf(x, n)
  {
    if j > 0 {
      SlotPeriod(x, n, j - 1);
      assert x + n * j - n == x + n * (j - 1);
      assert x + n * j >= n;
    }
  }

  /** A counter that wraps at a multiple of the size selects the same slots. */
  lemma {:induction false} Narrowed(ticket: nat, m: nat, n: nat, j: nat)
    requires n > 0 && m > 0 && n * j == m
    ensures SlotOf(SlotOf(ticket, m), n) == SlotOf(ticket, n)
  {
    if ticket >= m {
      Narrowed(ticket - m, m, n, j);
      SlotPeriod(ticket - m, n, j);
    }
  }

  function Pow2(k: nat): (r: nat)
    ensures r > 0
  {
    if k == 0 then 1 else 2 * Pow2(k - 1)
  }

  lemma {:induction false} Pow2Add(j: nat, k: nat)
    ensures Pow2(j + k) == Pow2(j) * Pow2(k)
  {
    if j > 0 {
      Pow2Add(j - 1, k);
      assert Pow2(j + k) == 2 * Pow2(j + k - 1);
    }
  }

  lemma {:induction false} Pow2Mono(j: nat, k: nat)
    requires j <= k
    ensures Pow2(j) <= Pow2(k)
  {
    if j < k { Pow2Mono(j, k - 1); }
  }
}
