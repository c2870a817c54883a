/** The delta queue of kernel/callout/mdx_callout.c, and the absolute deadlines
    that it stands for. */
module CalloutSpec {

  type Id = nat

  const WORD: nat := 0x1_0000_0000

  /** A queued callout: `ticks` is what separates it from the one before. */
  datatype Entry = Entry(id: Id, ticks: nat)

  /** A queued callout with the time at which it is due. */
  datatype Due = Due(id: Id, at: int)

  // ---------------------------------------------------------------- deadlines

  function Sum(q: seq<Entry>): nat {
    if q == [] then 0 else q[0].ticks + Sum(q[1..])
  }

  /** The deadlines, for deltas that count from `base`. */
  function Dues(q: seq<Entry>, base: int): (s: seq<Due>)
    ensures |s| == |q|
  {
    if q == [] then [] else [Due(q[0].id, base + q[0].ticks)] + Dues(q[1..], base + q[0].ticks)
  }

  predicate Sorted(s: seq<Due>) {
    forall i, j :: 0 <= i < j < |s| ==> s[i].at <= s[j].at
  }

  lemma {:induction false} DueAt(q: seq<Entry>, base: int, k: nat)
    requires k < |q|
    ensures Dues(q, base)[k] == Due(q[k].id, base + Sum(q[..k + 1]))
  {
    if k == 0 {
      assert q[..1] == [q[0]];
      assert Sum(q[..1]) == q[0].ticks + Sum([]);
    } else {
      DueAt(q[1..], base + q[0].ticks, k - 1);
      assert q[..k + 1][1..] == q[1..][..k];
    }
  }

  lemma {:induction false} DuesAfter(q: seq<Entry>, base: int)
    ensures forall d <- Dues(q, base) :: base <= d.at <= base + Sum(q)
  {
    if q != [] { DuesAfter(q[1..], base + q[0].ticks); }
  }

  lemma {:induction false} DuesSorted(q: seq<Entry>, base: int)
    ensures Sorted(Dues(q, base))
  {
    if q != [] {
      var rest := Dues(q[1..], base + q[0].ticks);
      DuesSorted(q[1..], base + q[0].ticks);
      DuesAfter(q[1..], base + q[0].ticks);
      assert forall j | 0 <= j < |rest| :: rest[j] in rest;
    }
  }

  // ----------------------------------------------------------------- inserting

  /** mdx_callout_set_one on the queue: `ticks` is counted from the same base. */
  function Inserted(q: seq<Entry>, id: Id, ticks: nat): seq<Entry> {
    if q == [] then [Entry(id, ticks)]
    else if q[0].ticks > ticks then [Entry(id, ticks), Entry(q[0].id, q[0].ticks - ticks)] + q[1..]
    else [q[0]] + Inserted(q[1..], id, ticks - q[0].ticks)
  }

  /** Into a list of deadlines: behind those that are due no later. */
  function PlacedIn(s: seq<Due>, x: Due): seq<Due> {
    if s == [] then [x]
    else if s[0].at > x.at then [x] + s
    else [s[0]] + PlacedIn(s[1..], x)
  }

  /** No other deadline changes, and ties are first come, first served. */
  lemma {:induction false} InsertedDues(q: seq<Entry>, base: int, id: Id, ticks: nat)
    ensures Dues(Inserted(q, id, ticks), base) == PlacedIn(Dues(q, base), Due(id, base + ticks))
  {
    if q == [] {
    } else if q[0].ticks > ticks {
      var q' := Inserted(q, id, ticks);
      assert q'[1..] == [Entry(q[0].id, q[0].ticks - ticks)] + q[1..];
      assert q'[1..][1..] == q[1..];
    } else {
      InsertedDues(q[1..], base + q[0].ticks, id, ticks - q[0].ticks);
      assert Inserted(q, id, ticks)[1..] == Inserted(q[1..], id, ticks - q[0].ticks);
    }
  }

  /** The place: behind all that are due no later, before all that are due later. */
  lemma {:induction false} PlacedInMeans(s: seq<Due>, x: Due) returns (k: nat)
    requires Sorted(s)
    ensures k <= |s| && PlacedIn(s, x) == s[..k] + [x] + s[k..]
    ensures forall i | 0 <= i < |s| :: s[i].at <= x.at <==> i < k
  {
    if s == [] || s[0].at > x.at {
      k := 0;
    } else {
      var r := s[1..];
      assert forall i | 0 <= i < |r| :: r[i] == s[i + 1];
      k := PlacedInMeans(r, x);
      assert s[..k + 1] == [s[0]] + r[..k] && s[k + 1..] == r[k..];
      assert forall i | 0 < i < |s| :: s[i] == r[i - 1];
      k := k + 1;
    }
  }

  lemma {:induction false} InsertedSum(q: seq<Entry>, id: Id, ticks: nat, bound: nat)
    requires Sum(q) < bound && ticks < bound
    ensures Sum(Inserted(q, id, ticks)) < bound
    ensures Sum(Inserted(q, id, ticks)) == if Sum(q) > ticks then Sum(q) else ticks
  {
    if q == [] {
      assert Inserted(q, id, ticks)[1..] == [];
    } else if q[0].ticks > ticks {
      var q' := Inserted(q, id, ticks);
      assert q'[1..] == [Entry(q[0].id, q[0].ticks - ticks)] + q[1..];
      assert q'[1..][1..] == q[1..];
    } else {
      InsertedSum(q[1..], id, ticks - q[0].ticks, bound - q[0].ticks);
      assert Inserted(q, id, ticks)[1..] == Inserted(q[1..], id, ticks - q[0].ticks);
    }
  }

  // ---------------------------------------------------------------- cancelling

  /** mdx_callout_cancel_locked on the queue: the next one takes over the delta. */
  function Dropped(q: seq<Entry>, k: nat): seq<Entry>
    requires k < |q|
  {
    if k + 1 == |q| then q[..k]
    else q[..k] + [Entry(q[k + 1].id, q[k + 1].ticks + q[k].ticks)] + q[k + 2..]
  }

  function Without(s: seq<Due>, k: nat): seq<Due>
    requires k < |s|
  {
    s[..k] + s[k + 1..]
  }

  lemma WithoutLater(x: Due, s: seq<Due>, k: nat)
    requires 0 < k <= |s|
    ensures Without([x] + s, k) == [x] + Without(s, k - 1)
  {
  }

  lemma DroppedAt(q: seq<Entry>, k: nat, j: nat)
    requires k < |q| && j < |q| - 1
    ensures Dropped(q, k)[j] ==
            if j < k then q[j] else if j == k then Entry(q[k + 1].id, q[k + 1].ticks + q[k].ticks) else q[j + 1]
  {
  }

  lemma DroppedLater(q: seq<Entry>, k: nat)
    requires 0 < k < |q|
    ensures Dropped(q, k) == [q[0]] + Dropped(q[1..], k - 1)
  {
    var a, b := Dropped(q, k), Dropped(q[1..], k - 1);
    forall j | 0 < j < |a| ensures a[j] == b[j - 1] {
      DroppedAt(q, k, j);
      DroppedAt(q[1..], k - 1, j - 1);
    }
    DroppedAt(q, k, 0);
  }

  /** Cancelling changes no other deadline. */
  lemma {:induction false} DroppedDues(q: seq<Entry>, base: int, k: nat)
    requires k < |q|
    ensures Dues(Dropped(q, k), base) == Without(Dues(q, base), k)
  {
    if k > 0 {
      DroppedDues(q[1..], base + q[0].ticks, k - 1);
      DroppedLater(q, k);
      WithoutLater(Dues(q, base)[0], Dues(q[1..], base + q[0].ticks), k);
    } else if |q| > 1 {
      assert Dropped(q, 0)[1..] == q[1..][1..];
    }
  }

  lemma {:induction false} DroppedSum(q: seq<Entry>, k: nat)
    requires k < |q|
    ensures Sum(Dropped(q, k)) <= Sum(q)
  {
    if k > 0 {
      DroppedSum(q[1..], k - 1);
      DroppedLater(q, k);
    } else if |q| > 1 {
      assert Dropped(q, 0)[1..] == q[1..][1..];
    }
  }

  // -------------------------------------------------------------------- firing

  /** How many callouts the walk of mdx_callout_callback fires. */
  function DueCount(q: seq<Entry>, elapsed: nat): (n: nat)
    ensures n <= |q|
  {
    if q == [] || elapsed < q[0].ticks then 0 else 1 + DueCount(q[1..], elapsed - q[0].ticks)
  }

  /** What the walk leaves in the queue. */
  function Left(q: seq<Entry>, elapsed: nat): seq<Entry> {
    if q == [] then []
    else if elapsed < q[0].ticks then [Entry(q[0].id, q[0].ticks - elapsed)] + q[1..]
    else Left(q[1..], elapsed - q[0].ticks)
  }

  /** Those that the walk fires are exactly those that are due. */
  lemma {:induction false} WalkCount(q: seq<Entry>, base: int, elapsed: nat, i: nat)
    requires i < |q|
    ensures Dues(q, base)[i].at <= base + elapsed <==> i < DueCount(q, elapsed)
  {
    var rest := Dues(q[1..], base + q[0].ticks);
    if i == 0 {
    } else if elapsed < q[0].ticks {
      assert Dues(q, base)[i] == rest[i - 1];
      DuesAfter(q[1..], base + q[0].ticks);
      assert rest[i - 1] in rest;
    } else {
      assert Dues(q, base)[i] == rest[i - 1];
      WalkCount(q[1..], base + q[0].ticks, elapsed - q[0].ticks, i - 1);
    }
  }

  /** What it leaves keeps its exact time. */
  lemma {:induction false} WalkLeft(q: seq<Entry>, base: int, elapsed: nat)
    ensures Dues(Left(q, elapsed), base + elapsed) == Dues(q, base)[DueCount(q, elapsed)..]
    ensures Sum(Left(q, elapsed)) <= Sum(q)
  {
    if q == [] {
    } else if elapsed < q[0].ticks {
      var l := Left(q, elapsed);
      assert l[1..] == q[1..] && l[0] == Entry(q[0].id, q[0].ticks - elapsed);
    } else {
      WalkLeft(q[1..], base + q[0].ticks, elapsed - q[0].ticks);
      TailOf(Dues(q, base)[0], Dues(q[1..], base + q[0].ticks), DueCount(q, elapsed));
    }
  }

  lemma TailOf(x: Due, s: seq<Due>, n: nat)
    requires 0 < n <= |s| + 1
    ensures ([x] + s)[n..] == s[n - 1..]
  {
  }

  /** Both together. */
  lemma WalkDues(q: seq<Entry>, base: int, elapsed: nat)
    ensures var s, n := Dues(q, base), DueCount(q, elapsed);
            && (forall i | 0 <= i < |q| :: s[i].at <= base + elapsed <==> i < n)
            && Dues(Left(q, elapsed), base + elapsed) == s[n..]
    ensures Sum(Left(q, elapsed)) <= Sum(q)
  {
    forall i | 0 <= i < |q| ensures Dues(q, base)[i].at <= base + elapsed <==> i < DueCount(q, elapsed) {
      WalkCount(q, base, elapsed, i);
    }
    WalkLeft(q, base, elapsed);
  }
}
