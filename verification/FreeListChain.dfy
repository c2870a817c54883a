/** The chain of the free-list allocator, kernel/malloc/mdx_freelist.c: one
    doubly linked list that threads 32 bucket heads and the free nodes. */
module FreeListChain {
  import opened Modular

  /** sizeof(struct node_s) with 8-byte pointers. */
  const NODE_S: nat := 24

  const HEADS: nat := 32

  /** A pointer to a node: one of the heads of the zone, or a header in a region. */
  datatype Ref = Null | Head(i: nat) | At(addr: nat)

  /** struct node_s.  `flags` is kept as its two parts: bit 31 and the size of
      the preceding node. */
  datatype Header = Header(next: Ref, prev: Ref, size: nat, prevSize: nat, inUse: bool)

  type Headers = map<Ref, Header>

  // ----------------------------------------------------------------- buckets

  /** The least size that bucket `i` holds. */
  function Low(i: nat): nat {
    if i == 0 then 0 else 16 * Pow2(i)
  }

  lemma {:induction false} LowGrows(i: nat, j: nat)
    requires i < j
    ensures Low(i) < Low(j)
  {
    if i + 1 < j { LowGrows(i, j - 1); }
  }

  /** Heads sort before the sizes of their bucket and after all smaller sizes. */
  function Rank(m: Headers, r: Ref): int {
    if r.Head? then 2 * Low(r.i) else if r in m then 2 * m[r].size + 1 else 0
  }

  // ------------------------------------------------------------------- links

  function NextOf(chain: seq<Ref>, k: nat): Ref
    requires k < |chain|
  {
    if k + 1 < |chain| then chain[k + 1] else Null
  }

  function PrevOf(chain: seq<Ref>, k: nat): Ref
    requires k < |chain|
  {
    if k > 0 then chain[k - 1] else Null
  }

  ghost predicate Linked(m: Headers, chain: seq<Ref>) {
    forall k :: 0 <= k < |chain| ==> LinkAt(m, chain, k)
  }

  ghost predicate LinkAt(m: Headers, chain: seq<Ref>, k: nat)
    requires k < |chain|
  {
    chain[k] in m && m[chain[k]].next == NextOf(chain, k) && m[chain[k]].prev == PrevOf(chain, k)
  }

  ghost predicate NoDup(chain: seq<Ref>) {
    forall j, k :: 0 <= j < k < |chain| ==> DistinctAt(chain, j, k)
  }

  predicate DistinctAt(chain: seq<Ref>, j: nat, k: nat)
    requires j < |chain| && k < |chain|
  {
    chain[j] != chain[k]
  }

  lemma DistinctIndex(chain: seq<Ref>, x: nat, y: nat)
    requires NoDup(chain) && x < |chain| && y < |chain|
    ensures x != y ==> chain[x] != chain[y]
  {
    if x < y { assert DistinctAt(chain, x, y); } else if y < x { assert DistinctAt(chain, y, x); }
  }

  function RemoveAt(chain: seq<Ref>, k: nat): seq<Ref>
    requires k < |chain|
  {
    chain[..k] + chain[k + 1..]
  }

  function InsertAt(chain: seq<Ref>, k: nat, r: Ref): seq<Ref>
    requires k <= |chain|
  {
    chain[..k] + [r] + chain[k..]
  }

  /** The two pointer writes that take `r` out, the second only if a node follows. */
  function UnlinkMem(m: Headers, r: Ref): Headers
    requires r in m && m[r].prev in m && (m[r].next == Null || m[r].next in m)
  {
    var p, n := m[r].prev, m[r].next;
    var m1 := m[p := m[p].(next := n)];
    if n != Null then m1[n := m1[n].(prev := p)] else m1
  }

  /** The four pointer writes that put `r` after `p`. */
  function InsertMem(m: Headers, p: Ref, r: Ref): Headers
    requires p in m && r in m && (m[p].next == Null || m[p].next in m)
  {
    var n := m[p].next;
    var m1 := m[p := m[p].(next := r)];
    var m2 := m1[r := m1[r].(prev := p, next := n)];
    if n != Null then m2[n := m2[n].(prev := r)] else m2
  }

  /** Only links differ. */
  ghost predicate SameTags(m: Headers, m': Headers) {
    && m.Keys == m'.Keys
    && forall r <- m :: m'[r] == m[r].(next := m'[r].next, prev := m'[r].prev)
  }

  lemma UnlinkAt(m: Headers, chain: seq<Ref>, k: nat, j: nat)
    requires Linked(m, chain) && NoDup(chain) && 0 < k < |chain| && j < |chain| - 1 && Null !in chain
    requires chain[k] in m && m[chain[k]].prev in m && (m[chain[k]].next == Null || m[chain[k]].next in m)
    ensures LinkAt(UnlinkMem(m, chain[k]), RemoveAt(chain, k), j)
  {
    var x := if j < k then j else j + 1;
    assert LinkAt(m, chain, k) && LinkAt(m, chain, x);
    DistinctIndex(chain, x, k - 1);
    if k + 1 < |chain| {
      assert chain[k + 1] in chain;
      DistinctIndex(chain, x, k + 1);
    }
  }

  lemma UnlinkLinked(m: Headers, chain: seq<Ref>, k: nat)
    requires Linked(m, chain) && NoDup(chain) && 0 < k < |chain| && Null !in chain
    ensures chain[k] in m && m[chain[k]].prev in m && (m[chain[k]].next == Null || m[chain[k]].next in m)
    ensures Linked(UnlinkMem(m, chain[k]), RemoveAt(chain, k))
  {
    assert LinkAt(m, chain, k) && LinkAt(m, chain, k - 1) && (k + 1 < |chain| ==> LinkAt(m, chain, k + 1));
    var c, m' := RemoveAt(chain, k), UnlinkMem(m, chain[k]);
    forall j | 0 <= j < |c|
      ensures LinkAt(m', c, j)
    {
      UnlinkAt(m, chain, k, j);
    }
  }

  lemma InsertAtIndex(m: Headers, chain: seq<Ref>, k: nat, r: Ref, j: nat)
    requires Linked(m, chain) && NoDup(chain) && k < |chain| && j <= |chain| && Null !in chain
    requires r in m && r !in chain && r != Null
    requires chain[k] in m && (m[chain[k]].next == Null || m[chain[k]].next in m)
    ensures LinkAt(InsertMem(m, chain[k], r), InsertAt(chain, k + 1, r), j)
  {
    assert LinkAt(m, chain, k);
    assert k + 1 < |chain| ==> chain[k + 1] in chain;
    if j != k + 1 {
      var x := if j <= k then j else j - 1;
      assert LinkAt(m, chain, x) && chain[x] in chain;
      DistinctIndex(chain, x, k);
      if k + 1 < |chain| { DistinctIndex(chain, x, k + 1); }
    }
  }

  lemma InsertLinked(m: Headers, chain: seq<Ref>, k: nat, r: Ref)
    requires Linked(m, chain) && NoDup(chain) && k < |chain| && Null !in chain
    requires r in m && r !in chain && r != Null
    ensures chain[k] in m && (m[chain[k]].next == Null || m[chain[k]].next in m)
    ensures Linked(InsertMem(m, chain[k], r), InsertAt(chain, k + 1, r))
  {
    assert LinkAt(m, chain, k) && (k + 1 < |chain| ==> LinkAt(m, chain, k + 1));
    var c, m' := InsertAt(chain, k + 1, r), InsertMem(m, chain[k], r);
    forall j | 0 <= j < |c|
      ensures LinkAt(m', c, j)
    {
      InsertAtIndex(m, chain, k, r, j);
    }
  }

  // ------------------------------------------------------- a well-formed chain

  ghost function Elems(chain: seq<Ref>): set<Ref> {
    set r | r in chain
  }

  ghost predicate Sorted(m: Headers, chain: seq<Ref>) {
    forall j :: 0 <= j < |chain| - 1 ==> SortedAt(m, chain, j)
  }

  ghost predicate SortedAt(m: Headers, chain: seq<Ref>, j: nat)
    requires j + 1 < |chain|
  {
    Rank(m, chain[j]) <= Rank(m, chain[j + 1])
  }

  /** Which nodes a chain may hold, and their sizes. */
  ghost predicate NodesOk(m: Headers, chain: seq<Ref>) {
    && (forall i :: 0 <= i < HEADS ==> Head(i) in chain && Head(i) in m && m[Head(i)].size == 0)
    && (forall r <- chain :: r in m && ((r.Head? && r.i < HEADS) || (r.At? && m[r].size > 0)))
  }

  /** The chain runs from head 0, each node once, through every head, and its
      nodes ascend by rank: each free node is in the bucket of its size, the
      buckets in ascending order of size. */
  ghost predicate ChainOk(m: Headers, chain: seq<Ref>) {
    && |chain| > 0 && chain[0] == Head(0)
    && Linked(m, chain) && NoDup(chain)
    && NodesOk(m, chain)
    && Sorted(m, chain)
  }

  lemma NoDupRemove(chain: seq<Ref>, k: nat)
    requires NoDup(chain) && k < |chain|
    ensures NoDup(RemoveAt(chain, k))
    ensures Elems(RemoveAt(chain, k)) == Elems(chain) - {chain[k]}
  {
    var c := RemoveAt(chain, k);
    forall i, j | 0 <= i < j < |c|
      ensures DistinctAt(c, i, j)
    {
      DistinctIndex(chain, if i < k then i else i + 1, if j < k then j else j + 1);
    }
    forall r | r in Elems(chain) - {chain[k]}
      ensures r in c
    {
      var x :| 0 <= x < |chain| && chain[x] == r;
      assert r == if x < k then c[x] else c[x - 1];
    }
    forall r | r in c
      ensures r in chain && r != chain[k]
    {
      var x :| 0 <= x < |c| && c[x] == r;
      DistinctIndex(chain, if x < k then x else x + 1, k);
    }
  }

  lemma NoDupInsert(chain: seq<Ref>, k: nat, r: Ref)
    requires NoDup(chain) && k <= |chain| && r !in chain
    ensures NoDup(InsertAt(chain, k, r))
    ensures Elems(InsertAt(chain, k, r)) == Elems(chain) + {r}
  {
    var c := InsertAt(chain, k, r);
    forall i, j | 0 <= i < j < |c|
      ensures DistinctAt(c, i, j)
    {
      if i != k && j != k {
        DistinctIndex(chain, if i < k then i else i - 1, if j < k then j else j - 1);
      }
    }
    forall q | q in chain
      ensures q in c
    {
      var x :| 0 <= x < |chain| && chain[x] == q;
      assert q == if x < k then c[x] else c[x + 1];
    }
    assert c[k] == r;
  }

  lemma UnlinkTags(m: Headers, r: Ref)
    requires r in m && m[r].prev in m && (m[r].next == Null || m[r].next in m)
    ensures SameTags(m, UnlinkMem(m, r))
  {
  }

  lemma InsertTags(m: Headers, p: Ref, r: Ref)
    requires p in m && r in m && (m[p].next == Null || m[p].next in m)
    ensures SameTags(m, InsertMem(m, p, r))
  {
  }

  /** Taking a free node out of the chain keeps the chain well formed. */
  lemma UnlinkOk(m: Headers, chain: seq<Ref>, k: nat)
    requires ChainOk(m, chain) && 0 < k < |chain| && chain[k].At?
    ensures chain[k] in m && m[chain[k]].prev in m && (m[chain[k]].next == Null || m[chain[k]].next in m)
    ensures ChainOk(UnlinkMem(m, chain[k]), RemoveAt(chain, k))
    ensures Elems(RemoveAt(chain, k)) == Elems(chain) - {chain[k]}
    ensures SameTags(m, UnlinkMem(m, chain[k]))
  {
    UnlinkLinked(m, chain, k);
    UnlinkTags(m, chain[k]);
    NoDupRemove(chain, k);
    var c, m' := RemoveAt(chain, k), UnlinkMem(m, chain[k]);
    NodesRemove(m, m', chain, k);
    SortedRemove(m, m', chain, k);
  }

  lemma NodesRemove(m: Headers, m': Headers, chain: seq<Ref>, k: nat)
    requires NodesOk(m, chain) && k < |chain| && chain[k].At? && SameTags(m, m')
    requires Elems(RemoveAt(chain, k)) == Elems(chain) - {chain[k]}
    ensures NodesOk(m', RemoveAt(chain, k))
  {
    var c := RemoveAt(chain, k);
    assert forall r :: r in c <==> r in Elems(c);
    assert forall r :: r in chain <==> r in Elems(chain);
  }

  /** Two nodes in order before are in order after, wherever they move. */
  lemma StillOrdered(m: Headers, m': Headers, a: Ref, b: Ref)
    requires SameTags(m, m') && Rank(m, a) <= Rank(m, b)
    ensures Rank(m', a) <= Rank(m', b)
  {
  }

  lemma {:induction false} OrderedAt(m: Headers, chain: seq<Ref>, x: nat, y: nat)
    requires Sorted(m, chain) && x <= y < |chain|
    ensures Rank(m, chain[x]) <= Rank(m, chain[y])
  {
    if x < y {
      OrderedAt(m, chain, x, y - 1);
      assert SortedAt(m, chain, y - 1);
    }
  }

  lemma SortedRemove(m: Headers, m': Headers, chain: seq<Ref>, k: nat)
    requires Sorted(m, chain) && k < |chain| && SameTags(m, m')
    ensures Sorted(m', RemoveAt(chain, k))
  {
    var c := RemoveAt(chain, k);
    forall j | 0 <= j < |c| - 1
      ensures SortedAt(m', c, j)
    {
      var x, y := if j < k then j else j + 1, if j + 1 < k then j + 1 else j + 2;
      OrderedAt(m, chain, x, y);
      StillOrdered(m, m', chain[x], chain[y]);
    }
  }

  /** Putting a node between two that bracket its rank keeps the chain well formed. */
  lemma InsertOk(m: Headers, chain: seq<Ref>, k: nat, r: Ref)
    requires ChainOk(m, chain) && k < |chain| && r in m && r !in chain && r.At? && m[r].size > 0
    requires Rank(m, chain[k]) <= Rank(m, r)
    requires k + 1 < |chain| ==> Rank(m, r) <= Rank(m, chain[k + 1])
    ensures chain[k] in m && (m[chain[k]].next == Null || m[chain[k]].next in m)
    ensures ChainOk(InsertMem(m, chain[k], r), InsertAt(chain, k + 1, r))
    ensures Elems(InsertAt(chain, k + 1, r)) == Elems(chain) + {r}
    ensures SameTags(m, InsertMem(m, chain[k], r))
  {
    InsertLinked(m, chain, k, r);
    InsertTags(m, chain[k], r);
    NoDupInsert(chain, k + 1, r);
    var c, m' := InsertAt(chain, k + 1, r), InsertMem(m, chain[k], r);
    NodesInsert(m, m', chain, k + 1, r);
    SortedInsert(m, m', chain, k, r);
  }

  lemma NodesInsert(m: Headers, m': Headers, chain: seq<Ref>, k: nat, r: Ref)
    requires NodesOk(m, chain) && k <= |chain| && r in m && r.At? && m[r].size > 0 && SameTags(m, m')
    requires Elems(InsertAt(chain, k, r)) == Elems(chain) + {r}
    ensures NodesOk(m', InsertAt(chain, k, r))
  {
    var c := InsertAt(chain, k, r);
    assert forall q :: q in c <==> q in Elems(c);
    assert forall q :: q in chain <==> q in Elems(chain);
  }

  lemma SortedInsert(m: Headers, m': Headers, chain: seq<Ref>, k: nat, r: Ref)
    requires Sorted(m, chain) && k < |chain| && r in m && SameTags(m, m')
    requires Rank(m, chain[k]) <= Rank(m, r)
    requires k + 1 < |chain| ==> Rank(m, r) <= Rank(m, chain[k + 1])
    ensures Sorted(m', InsertAt(chain, k + 1, r))
  {
    var c := InsertAt(chain, k + 1, r);
    forall j | 0 <= j < |c| - 1
      ensures SortedAt(m', c, j)
    {
      if j < k {
        OrderedAt(m, chain, j, j + 1);
        StillOrdered(m, m', chain[j], chain[j + 1]);
      } else if j == k {
        StillOrdered(m, m', chain[k], r);
      } else if j == k + 1 {
        StillOrdered(m, m', r, chain[k + 1]);
      } else {
        OrderedAt(m, chain, j - 1, j);
        StillOrdered(m, m', chain[j - 1], chain[j]);
      }
    }
  }

  /** Header writes that keep the links and sizes of the chain's nodes keep the chain. */
  lemma ChainFrame(m: Headers, m': Headers, chain: seq<Ref>)
    requires ChainOk(m, chain)
    requires forall r <- chain :: r in m' && r in m &&
               m'[r].next == m[r].next && m'[r].prev == m[r].prev && m'[r].size == m[r].size
    ensures ChainOk(m', chain)
  {
    forall k | 0 <= k < |chain|
      ensures LinkAt(m', chain, k)
    {
      assert LinkAt(m, chain, k) && chain[k] in chain;
    }
    forall j | 0 <= j < |chain| - 1
      ensures SortedAt(m', chain, j)
    {
      assert SortedAt(m, chain, j) && chain[j] in chain && chain[j + 1] in chain;
    }
  }
}
