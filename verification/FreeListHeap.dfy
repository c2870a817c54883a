/** The invariant of a zone, and how replacing blocks keeps it. */
module FreeListHeap {
  import opened FreeListChain
  import opened FreeListBlocks

  function Total(bs: seq<Block>): nat {
    if bs == [] then 0 else Total(bs[..|bs| - 1]) + bs[|bs| - 1].size
  }

  ghost function HeadRefs(): set<Ref> {
    set i | 0 <= i < HEADS :: Head(i)
  }

  /** The headers carry the blocks' tags, and the chain holds the heads and
      exactly the free blocks.  Sizes fit the 31 bits kept for them. */
  ghost predicate HeapOk(m: Headers, chain: seq<Ref>, bs: seq<Block>) {
    && BlocksOk(bs) && TagsOk(m, bs)
    && ChainOk(m, chain) && Elems(chain) == HeadRefs() + FreeRefs(bs)
    && Total(bs) < 0x8000_0000
  }

  // ------------------------------------------------------------------ totals

  lemma {:induction false} TotalAppend(a: seq<Block>, b: seq<Block>)
    ensures Total(a + b) == Total(a) + Total(b)
  {
    if b == [] {
      assert a + b == a;
    } else {
      var n := |b| - 1;
      TotalAppend(a, b[..n]);
      assert (a + b)[..|a| + n] == a + b[..n];
    }
  }

  lemma {:induction false} TotalRow(bs: seq<Block>, i: nat, j: nat)
    requires BlocksOk(bs) && i <= j < |bs| && forall k :: i <= k < j ==> InnerAt(bs, k)
    ensures Total(bs[i..j]) == bs[j].addr - bs[i].addr
  {
    if i < j {
      TotalRow(bs, i, j - 1);
      assert JoinedAt(bs, j - 1) && InnerAt(bs, j - 1);
      assert bs[i..j][..j - i - 1] == bs[i..j - 1];
    }
  }

  lemma TotalNew(parts: seq<Block>)
    requires |parts| == 1 || (|parts| == 2 && parts[0].Inner() && Joined(parts[0], parts[1]))
    ensures Total(parts) == parts[|parts| - 1].End() - parts[0].addr
  {
    assert parts[..1] == [parts[0]];
    assert Total([parts[0]]) == parts[0].size;
  }

  /** Retiling part of a region moves no memory in or out. */
  lemma TotalSplice(bs: seq<Block>, i: nat, j: nat, parts: seq<Block>)
    requires BlocksOk(bs) && Fits(bs, i, j, parts)
    ensures Total(Splice(bs, i, j, parts)) == Total(bs)
  {
    TotalRow(bs, i, j);
    TotalNew(parts);
    TotalAppend(bs[..i] + parts, bs[j..]);
    TotalAppend(bs[..i], parts);
    assert bs == bs[..i] + bs[i..j] + bs[j..];
    TotalAppend(bs[..i] + bs[i..j], bs[j..]);
    TotalAppend(bs[..i], bs[i..j]);
  }

  lemma {:induction false} SizeInTotal(bs: seq<Block>, i: nat)
    requires i < |bs|
    ensures bs[i].size <= Total(bs)
  {
    if i + 1 < |bs| { SizeInTotal(bs[..|bs| - 1], i); }
  }

  // ---------------------------------------------------------------- replacing

  /** The new blocks start where no other block does. */
  lemma NewApart(bs: seq<Block>, i: nat, j: nat, parts: seq<Block>, k: nat, x: nat)
    requires BlocksOk(bs) && Fits(bs, i, j, parts) && k < |parts| && x < |bs| && !(i <= x < j)
    ensures parts[k].addr != bs[x].addr
  {
    SpliceApart(bs, i, j, parts, k, x);
    assert BlockAt(bs, x) && BlockOk(parts[k]);
  }

  lemma NewNotFree(bs: seq<Block>, i: nat, j: nat, parts: seq<Block>, k: nat)
    requires BlocksOk(bs) && Fits(bs, i, j, parts) && k < |parts|
    ensures At(parts[k].addr) !in FreeRefs(bs) - FreeRefs(bs[i..j])
  {
    if At(parts[k].addr) in FreeRefs(bs) {
      var x :| 0 <= x < |bs| && bs[x].kind == Free && bs[x].addr == parts[k].addr;
      if i <= x < j {
        assert bs[i..j][x - i] == bs[x];
      } else {
        NewApart(bs, i, j, parts, k, x);
      }
    }
  }

  /** Replacing blocks keeps the invariant of the zone. */
  lemma HeapSplice(m: Headers, chain: seq<Ref>, m': Headers, chain': seq<Ref>,
                   bs: seq<Block>, i: nat, j: nat, parts: seq<Block>)
    requires HeapOk(m, chain, bs) && Fits(bs, i, j, parts)
    requires Retagged(m, m', bs, i, j, parts)
    requires ChainOk(m', chain') && Elems(chain') == Elems(chain) - FreeRefs(bs[i..j]) + FreeRefs(parts)
    ensures HeapOk(m', chain', Splice(bs, i, j, parts))
  {
    SpliceOk(bs, i, j, parts);
    SpliceTags(m, m', bs, i, j, parts);
    FreeRefsChange(bs, i, j, parts);
    TotalSplice(bs, i, j, parts);
    assert HeadRefs() !! FreeRefs(bs[i..j]);
  }

  /** The block of a free node of the chain. */
  lemma BlockOfNode(m: Headers, chain: seq<Ref>, bs: seq<Block>, r: Ref) returns (i: nat)
    requires HeapOk(m, chain, bs) && r in chain && r.At?
    ensures 0 < i < |bs| - 1 && bs[i].kind == Free && bs[i].addr == r.addr
    ensures TagAt(m, bs, i) && TagAt(m, bs, i + 1)
    ensures JoinedAt(bs, i) && JoinedAt(bs, i - 1) && BlockAt(bs, i)
  {
    assert r in Elems(chain);
    var k :| 0 <= k < |bs| && bs[k].kind == Free && At(bs[k].addr) == r;
    i := k;
  }

  lemma FreeInChain(m: Headers, chain: seq<Ref>, bs: seq<Block>, i: nat)
    requires HeapOk(m, chain, bs) && i < |bs| && bs[i].kind == Free
    ensures At(bs[i].addr) in chain && TagAt(m, bs, i)
  {
    assert At(bs[i].addr) in FreeRefs(bs);
    assert At(bs[i].addr) in Elems(chain);
  }

  // ------------------------------------------------------------------ regions

  /** A region: one free block between two sentinels. */
  function Region(base: nat, size: nat): seq<Block>
    requires size > 3 * NODE_S
  {
    [Block(base, NODE_S, First), Block(base + NODE_S, size - 2 * NODE_S, Free),
     Block(base + size - NODE_S, NODE_S, Last)]
  }

  /** No block of the zone overlaps the region. */
  ghost predicate RegionApart(bs: seq<Block>, base: nat, size: nat) {
    forall k :: 0 <= k < |bs| ==> OutsideAt(bs, k, base, size)
  }

  ghost predicate OutsideAt(bs: seq<Block>, k: nat, base: nat, size: nat)
    requires k < |bs|
  {
    bs[k].End() <= base || base + size <= bs[k].addr
  }

  lemma RegionBlocks(bs: seq<Block>, base: nat, size: nat)
    requires BlocksOk(bs) && size > 3 * NODE_S && RegionApart(bs, base, size)
    ensures BlocksOk(bs + Region(base, size))
  {
    var n, bs' := |bs|, bs + Region(base, size);
    forall i | 0 <= i < |bs'|
      ensures BlockAt(bs', i)
    {
      if i < n { assert BlockAt(bs, i); }
    }
    forall i | 0 <= i < |bs'| - 1
      ensures JoinedAt(bs', i)
    {
      if i + 1 < n { assert JoinedAt(bs, i); }
    }
    forall i, j | 0 <= i < j < |bs'|
      ensures ApartAt(bs', i, j)
    {
      if j < n {
        assert ApartAt(bs, i, j);
      } else if i < n {
        assert OutsideAt(bs, i, base, size);
      }
    }
  }

  /** The headers `m'` are `m` with those of the new region. */
  ghost predicate RegionTagged(m: Headers, m': Headers, bs: seq<Block>, base: nat, size: nat)
    requires size > 3 * NODE_S
  {
    && (forall k :: 0 <= k < |bs| ==> KeptAt(m, m', bs, k))
    && At(base) in m' && Carries(m'[At(base)], Region(base, size)[0], 0)
    && At(base + NODE_S) in m' && Carries(m'[At(base + NODE_S)], Region(base, size)[1], NODE_S)
    && At(base + size - NODE_S) in m'
    && Carries(m'[At(base + size - NODE_S)], Region(base, size)[2], size - 2 * NODE_S)
  }

  lemma RegionTags(m: Headers, m': Headers, bs: seq<Block>, base: nat, size: nat)
    requires BlocksOk(bs) && TagsOk(m, bs) && size > 3 * NODE_S && RegionTagged(m, m', bs, base, size)
    ensures TagsOk(m', bs + Region(base, size))
  {
    var n, bs' := |bs|, bs + Region(base, size);
    forall i | 0 <= i < |bs'|
      ensures TagAt(m', bs', i)
    {
      if i < n {
        assert TagAt(m, bs, i) && KeptAt(m, m', bs, i);
      } else {
        assert bs'[i] == Region(base, size)[i - n];
        assert i > n ==> bs'[i - 1] == Region(base, size)[i - 1 - n];
      }
    }
  }

  lemma HeapRegion(m: Headers, c: seq<Ref>, m': Headers, c': seq<Ref>, bs: seq<Block>, base: nat, size: nat)
    requires HeapOk(m, c, bs) && size > 3 * NODE_S && RegionApart(bs, base, size)
    requires Total(bs) + size < 0x8000_0000 && RegionTagged(m, m', bs, base, size)
    requires ChainOk(m', c') && Elems(c') == Elems(c) + {At(base + NODE_S)}
    ensures HeapOk(m', c', bs + Region(base, size))
  {
    var region := Region(base, size);
    RegionBlocks(bs, base, size);
    RegionTags(m, m', bs, base, size);
    FreeRefsAppend(bs, region);
    assert region == [region[0], region[1]] + [region[2]];
    FreeRefsAppend([region[0], region[1]], [region[2]]);
    FreeRefsTwo(region[0], region[1]);
    FreeRefsOne(region[0]);
    FreeRefsOne(region[1]);
    FreeRefsOne(region[2]);
    TotalAppend(bs, region);
    assert region[..2] == [region[0], region[1]] && region[..2][..1] == [region[0]];
    assert Total(region[..2]) == Total([region[0]]) + region[1].size;
  }
}
