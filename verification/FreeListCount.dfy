/** The sum that mdx_fl_count takes along the chain. */
module FreeListCount {
  import opened FreeListChain
  import opened FreeListBlocks
  import opened FreeListHeap

  /** The bytes of free blocks. */
  function FreeTotal(bs: seq<Block>): nat {
    if bs == [] then 0
    else
      var b := bs[|bs| - 1];
      FreeTotal(bs[..|bs| - 1]) + if b.kind == Free then b.size else 0
  }

  function SumSizes(m: Headers, c: seq<Ref>): nat {
    if c == [] then 0
    else
      var r := c[|c| - 1];
      SumSizes(m, c[..|c| - 1]) + if r in m then m[r].size else 0
  }

  lemma {:induction false} SumAppend(m: Headers, a: seq<Ref>, b: seq<Ref>)
    ensures SumSizes(m, a + b) == SumSizes(m, a) + SumSizes(m, b)
  {
    if b == [] {
      assert a + b == a;
    } else {
      var n := |b| - 1;
      SumAppend(m, a, b[..n]);
      assert (a + b)[..|a| + n] == a + b[..n];
    }
  }

  lemma SumRemove(m: Headers, c: seq<Ref>, k: nat)
    requires k < |c| && c[k] in m
    ensures SumSizes(m, c) == SumSizes(m, RemoveAt(c, k)) + m[c[k]].size
  {
    assert c == c[..k] + [c[k]] + c[k + 1..];
    SumAppend(m, c[..k] + [c[k]], c[k + 1..]);
    SumAppend(m, c[..k], [c[k]]);
    assert [c[k]][..0] == [] && SumSizes(m, [c[k]]) == m[c[k]].size;
    SumAppend(m, c[..k], c[k + 1..]);
  }

  lemma {:induction false} SumOfEmpty(m: Headers, c: seq<Ref>)
    requires forall r <- c :: r in m ==> m[r].size == 0
    ensures SumSizes(m, c) == 0
  {
    if c != [] {
      assert c[|c| - 1] in c;
      SumOfEmpty(m, c[..|c| - 1]);
    }
  }

  ghost predicate FreeTagged(m: Headers, bs: seq<Block>) {
    forall i :: 0 <= i < |bs| ==> FreeTaggedAt(m, bs, i)
  }

  /** A free block has its size in its header and an address of its own. */
  ghost predicate FreeTaggedAt(m: Headers, bs: seq<Block>, i: nat)
    requires i < |bs|
  {
    && (bs[i].kind == Free ==> At(bs[i].addr) in m && m[At(bs[i].addr)].size == bs[i].size)
    && forall j :: 0 <= j < i ==> bs[j].addr != bs[i].addr
  }

  /** Summing along a chain that holds each free block once, in whatever order,
      sums the free blocks. */
  lemma {:induction false} SumIsFreeTotal(m: Headers, c: seq<Ref>, bs: seq<Block>)
    requires NoDup(c) && FreeTagged(m, bs) && Elems(c) == HeadRefs() + FreeRefs(bs)
    requires forall i :: 0 <= i < HEADS ==> Head(i) in m && m[Head(i)].size == 0
    ensures SumSizes(m, c) == FreeTotal(bs)
  {
    if bs == [] {
      assert forall r <- c :: r in Elems(c);
      SumOfEmpty(m, c);
    } else {
      var n := |bs| - 1;
      var b, rest := bs[n], bs[..n];
      assert bs == rest + [b];
      FreeRefsAppend(rest, [b]);
      FreeRefsOne(b);
      assert FreeTaggedAt(m, bs, n);
      forall i | 0 <= i < n
        ensures FreeTaggedAt(m, rest, i)
      {
        assert FreeTaggedAt(m, bs, i);
      }
      if b.kind == Free {
        var r := At(b.addr);
        assert r in Elems(c);
        var k :| 0 <= k < |c| && c[k] == r;
        NoDupRemove(c, k);
        assert r !in FreeRefs(rest);
        SumIsFreeTotal(m, RemoveAt(c, k), rest);
        SumRemove(m, c, k);
      } else {
        SumIsFreeTotal(m, c, rest);
      }
    }
  }

  lemma CountIsFreeTotal(m: Headers, c: seq<Ref>, bs: seq<Block>)
    requires HeapOk(m, c, bs)
    ensures SumSizes(m, c) == FreeTotal(bs)
  {
    forall i | 0 <= i < |bs|
      ensures FreeTaggedAt(m, bs, i)
    {
      assert TagAt(m, bs, i);
      forall j | 0 <= j < i
        ensures bs[j].addr != bs[i].addr
      {
        AddressesDiffer(bs, i, j);
      }
    }
    SumIsFreeTotal(m, c, bs);
  }
}
