/** Nodes, keys and their order: what the trees of include/sys/tree.h share. */
module TreeKeys {

  /** A pointer to a node; 0 is NULL. */
  type Ref = nat

  const NULL: Ref := 0

  datatype Elem = Elem(id: Ref, key: int)

  ghost predicate Ascending(s: seq<Elem>) {
    forall i, j :: 0 <= i < j < |s| ==> s[i].key < s[j].key
  }

  predicate AllBelow(s: seq<Elem>, k: int) { forall e <- s :: e.key < k }

  predicate AllAbove(s: seq<Elem>, k: int) { forall e <- s :: k < e.key }

  ghost predicate HasKey(s: seq<Elem>, k: int) { exists e <- s :: e.key == k }

  /** Ascending, split at one element. */
  lemma SplitAscending(a: seq<Elem>, x: Elem, b: seq<Elem>)
    ensures Ascending(a + [x] + b) <==>
            Ascending(a) && Ascending(b) && AllBelow(a, x.key) && AllAbove(b, x.key)
  {
    var s := a + [x] + b;
    assert s[|a|] == x;
    assert forall i | 0 <= i < |a| :: s[i] == a[i];
    assert forall i | 0 <= i < |b| :: s[|a| + 1 + i] == b[i];
    assert forall i | |a| < i < |s| :: s[i] == b[i - |a| - 1];
  }

  function FirstId(s: seq<Elem>): Ref { if s == [] then NULL else s[0].id }

  function LastId(s: seq<Elem>): Ref { if s == [] then NULL else s[|s| - 1].id }

  /** The sequence without its element `i`. */
  function Without(s: seq<Elem>, i: nat): seq<Elem>
    requires i < |s|
  {
    s[..i] + s[i + 1..]
  }

  /** The sequence with `x` before position `i`. */
  function With(s: seq<Elem>, i: nat, x: Elem): seq<Elem>
    requires i <= |s|
  {
    s[..i] + [x] + s[i..]
  }

  lemma WithoutAt(a: seq<Elem>, x: Elem, b: seq<Elem>)
    ensures Without(a + [x] + b, |a|) == a + b
  {
  }

  lemma WithAt(a: seq<Elem>, x: Elem, b: seq<Elem>)
    ensures With(a + b, |a|, x) == a + [x] + b
  {
  }

  lemma WithoutAscending(s: seq<Elem>, i: nat)
    requires i < |s| && Ascending(s)
    ensures Ascending(Without(s, i))
  {
    var w := Without(s, i);
    assert forall j | 0 <= j < |w| :: w[j] == if j < i then s[j] else s[j + 1];
  }

  ghost predicate DistinctIds(s: seq<Elem>) {
    forall i, j :: 0 <= i < j < |s| ==> s[i].id != s[j].id
  }

  /** In an ascending sequence no other element has the key of element `i`. */
  lemma AloneWithKey(s: seq<Elem>, i: nat)
    requires i < |s| && Ascending(s)
    ensures !HasKey(Without(s, i), s[i].key) && With(Without(s, i), i, s[i]) == s
  {
    var w := Without(s, i);
    assert forall j | 0 <= j < |w| :: w[j] == if j < i then s[j] else s[j + 1];
  }

  lemma WithoutId(s: seq<Elem>, i: nat)
    requires i < |s| && DistinctIds(s)
    ensures forall e <- Without(s, i) :: e.id != s[i].id
  {
    var w := Without(s, i);
    assert forall j | 0 <= j < |w| :: w[j] == if j < i then s[j] else s[j + 1];
  }

  lemma Regrouped(a: seq<Elem>, x: Elem, b: seq<Elem>, y: Elem, c: seq<Elem>)
    ensures a + [x] + (b + [y] + c) == (a + [x] + b) + [y] + c
  {
  }

  lemma Shifted(a: seq<Elem>, b: seq<Elem>, x: Elem, c: seq<Elem>, d: seq<Elem>)
    ensures a + (b + [x] + c) + d == a + b + ([x] + c + d)
    ensures a + (b + [x] + c) + d == (a + b + [x]) + c + d
  {
  }

  lemma SliceAscending(s: seq<Elem>, i: nat, j: nat)
    requires i <= j <= |s| && Ascending(s)
    ensures Ascending(s[i..j])
  {
    var w := s[i..j];
    assert forall k | 0 <= k < |w| :: w[k] == s[i + k];
  }

  /** A new element at the place where the keys pass its own. */
  lemma WithAscending(a: seq<Elem>, x: Elem, b: seq<Elem>)
    requires Ascending(a + b) && AllBelow(a, x.key) && AllAbove(b, x.key)
    ensures With(a + b, |a|, x) == a + [x] + b && Ascending(a + [x] + b)
  {
    WithAt(a, x, b);
    assert (a + b)[..|a|] == a && (a + b)[|a|..] == b;
    SliceAscending(a + b, 0, |a|);
    SliceAscending(a + b, |a|, |a + b|);
    SplitAscending(a, x, b);
  }

  lemma Prefixed(a: seq<Elem>, x: Elem, b: seq<Elem>, k: int)
    requires k < x.key && AllAbove(b, k)
    ensures a + [x] + b == a + ([x] + b) && [] + [x] + b == [x] + b && AllAbove([x] + b, k)
  {
  }

  lemma Flattened(a: seq<Elem>, b: seq<Elem>, x: Elem, c: seq<Elem>, d: seq<Elem>)
    ensures (a + b) + [x] + (c + d) == a + (b + [x] + c) + d
  {
  }
}
