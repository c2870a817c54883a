/** The free-list allocator, kernel/malloc/mdx_freelist.c. */
module FreeList {
  import opened Modular
  import opened FreeListChain
  import opened FreeListBlocks
  import opened FreeListHeap
  import opened FreeListData
  import opened FreeListSpec
  import opened FreeListCount
  import opened FreeListAccount

  /** The range of uint32_t, which size2i takes, and that of size_t. */
  const WORD: nat := 0x1_0000_0000
  const SIZE_T: nat := 0x1_0000_0000_0000_0000

  /** The position of the highest bit. */
  function Log2(s: nat): nat {
    if s <= 1 then 0 else 1 + Log2(s / 2)
  }

  lemma {:induction false} Log2Bounds(s: nat)
    requires s > 0
    ensures Pow2(Log2(s)) <= s < 2 * Pow2(Log2(s))
  {
    if s > 1 { Log2Bounds(s / 2); }
  }

  lemma Pow2At28()
    ensures Pow2(28) == 0x1000_0000
  {
    assert Pow2(7) == 0x80;
    assert Pow2(14) == 0x4000;
    assert Pow2(21) == 0x20_0000;
  }

  lemma BucketOf(size: nat)
    requires size < WORD
    ensures var i := Log2(size / 16); i < HEADS && Low(i) <= size < Low(i + 1)
  {
    var s := size / 16;
    var i := Log2(s);
    if s > 0 {
      Log2Bounds(s);
      if i >= 28 {
        Pow2Mono(28, i);
        Pow2At28();
      }
    }
  }

  /** The bucket of a size. */
  method Size2i(size: nat) returns (i: nat)
    requires size < WORD
    ensures i < HEADS && Low(i) <= size < Low(i + 1)
  {
    i := 0;
    var s: nat := size / 16;
    while s > 1
      invariant i + Log2(s) == Log2(size / 16)
      decreases s
    {
      s := s / 2;
      i := i + 1;
    }
    BucketOf(size);
  }

  class Zone {
    /** Every header in memory, with the 32 heads of the zone. */
    var mem: Headers
    /** The payload bytes written and not since destroyed. */
    var data: Bytes
    /** The nodes of the chain, in order, and the blocks of all regions. */
    ghost var chain: seq<Ref>
    ghost var blocks: seq<Block>
    /** The payload bytes when the current operation started, and the headers
        it may write. */
    ghost var before: Bytes
    ghost var scope: set<Ref>

    /** mdx_fl_init on a fresh zone. */
    constructor ()
      ensures Valid() && blocks == [] && data == map[]
    {
      var heads := InitHeads();
      mem, data := heads, map[];
      blocks, before, scope, chain := [], map[], {}, HeadChain();
      EmptyHeap(heads);
    }

    ghost predicate Tracked()
      reads this
    {
      Keeps(before, data, scope)
    }

    method SetHeader(r: Ref, h: Header)
      requires Tracked() && r in scope
      modifies this`mem, this`data
      ensures Tracked() && mem == old(mem)[r := h]
    {
      mem := mem[r := h];
      data := Clobber(data, r);
    }

    /** Takes a free node out of the chain. */
    method Unlink(r: Ref)
      requires ChainOk(mem, chain) && r.At? && r in chain
      requires Tracked() && Elems(chain) <= scope
      modifies this`mem, this`data, this`chain
      ensures ChainOk(mem, chain) && Elems(chain) == old(Elems(chain)) - {r}
      ensures SameTags(old(mem), mem) && Tracked()
    {
      ghost var k :| 0 <= k < |chain| && chain[k] == r;
      UnlinkOk(mem, chain, k);
      assert LinkAt(mem, chain, k);
      var p, n := mem[r].prev, mem[r].next;
      assert p in chain && (n != Null ==> n in chain);
      SetHeader(p, mem[p].(next := n));
      if n != Null {
        SetHeader(n, mem[n].(prev := p));
      }
      chain := RemoveAt(chain, k);
    }

    /** mdx_fl_add_node: puts a node into the bucket of its size, before the
        first node of the bucket that is not smaller. */
    method AddNode(r: Ref)
      requires ChainOk(mem, chain) && r.At? && r !in chain && r in mem && 0 < mem[r].size < WORD
      requires Tracked() && Elems(chain) <= scope && r in scope
      modifies this`mem, this`data, this`chain
      ensures ChainOk(mem, chain) && Elems(chain) == old(Elems(chain)) + {r}
      ensures SameTags(old(mem), mem) && Tracked()
    {
      var i := Size2i(mem[r].size);
      ghost var k0 :| 0 <= k0 < |chain| && chain[k0] == Head(i);
      ghost var k := k0;
      assert LinkAt(mem, chain, k);
      var prev, next := Head(i), mem[Head(i)].next;
      while next != Null && mem[next].size != 0 && mem[next].size < mem[r].size
        invariant k0 <= k < |chain| && prev == chain[k] && next == NextOf(chain, k)
        invariant Rank(mem, prev) <= Rank(mem, r)
        invariant next != Null ==> next in chain
        decreases |chain| - k
      {
        k := k + 1;
        assert LinkAt(mem, chain, k);
        prev, next := next, mem[next].next;
      }
      if next != Null && mem[next].size == 0 {
        NextBucketFollows(mem, chain, i, k0, k + 1, mem[r].size);
      }
      InsertAfter(prev, next, r, k);
    }

    /** The pointer writes at the end of mdx_fl_add_node. */
    method InsertAfter(prev: Ref, next: Ref, r: Ref, ghost k: nat)
      requires ChainOk(mem, chain) && k < |chain| && prev == chain[k] && next == NextOf(chain, k)
      requires r.At? && r !in chain && r in mem && mem[r].size > 0
      requires Rank(mem, prev) <= Rank(mem, r) && (next != Null ==> Rank(mem, r) <= Rank(mem, next))
      requires Tracked() && Elems(chain) <= scope && r in scope
      modifies this`mem, this`data, this`chain
      ensures ChainOk(mem, chain) && Elems(chain) == old(Elems(chain)) + {r}
      ensures SameTags(old(mem), mem) && Tracked()
    {
      assert k + 1 < |chain| ==> chain[k + 1] in chain;
      InsertOk(mem, chain, k, r);
      assert LinkAt(mem, chain, k);
      SetHeader(prev, mem[prev].(next := r));
      SetHeader(r, mem[r].(prev := prev, next := next));
      if next != Null {
        SetHeader(next, mem[next].(prev := r));
      }
      chain := InsertAt(chain, k + 1, r);
    }

    /** Writes a header outside the chain. */
    method SetOff(r: Ref, h: Header)
      requires ChainOk(mem, chain) && r !in chain && Tracked() && r in scope
      modifies this`mem, this`data
      ensures mem == old(mem)[r := h] && ChainOk(mem, chain) && Tracked()
    {
      SetHeader(r, h);
      ChainFrame(old(mem), mem, chain);
    }

    /** Replaces the size of the preceding node in the flags and keeps bit 31. */
    method SetPrevSize(r: Ref, n: nat)
      requires ChainOk(mem, chain) && r in mem && Tracked() && r in scope
      modifies this`mem, this`data
      ensures mem == old(mem)[r := old(mem)[r].(prevSize := n)] && ChainOk(mem, chain) && Tracked()
    {
      SetHeader(r, mem[r].(prevSize := n));
      ChainFrame(old(mem), mem, chain);
    }

    /** The first node from the bucket of `need` on that is large enough.  The
        bucket is that of the low 32 bits; the sizes are compared in full. */
    method FindFit(need: nat) returns (node: Ref)
      requires ChainOk(mem, chain) && 0 < need < SIZE_T && forall r <- chain :: r in mem && mem[r].size < WORD
      ensures node == Null ==> forall r <- chain :: mem[r].size < need
      ensures node != Null ==>
                && node in chain && node.At? && mem[node].size >= need
                && forall r <- chain :: mem[r].size >= need ==> mem[node].size <= mem[r].size
    {
      var i := Size2i(need % WORD);
      ghost var k :| 0 <= k < |chain| && chain[k] == Head(i);
      if need < WORD {
        SmallerBefore(mem, chain, k, need);
      }
      assert LinkAt(mem, chain, k);
      node := mem[Head(i)].next;
      k := k + 1;
      while node != Null && mem[node].size < need
        invariant 0 < k <= |chain| && node == (if k < |chain| then chain[k] else Null)
        invariant forall x :: 0 <= x < k ==> chain[x] in mem && mem[chain[x]].size < need
        invariant node != Null ==> node in chain
        decreases |chain| - k
      {
        assert LinkAt(mem, chain, k);
        node := mem[node].next;
        k := k + 1;
      }
      if node != Null {
        LargerAfter(mem, chain, k, need);
      }
    }

    ghost predicate Valid()
      reads this
    {
      HeapOk(mem, chain, blocks)
    }

    /** Starts an operation that turns the blocks into `bs'`. */
    ghost method Begin(bs': seq<Block>)
      requires Valid()
      modifies this`before, this`scope
      ensures before == data && scope == Writable(blocks, bs') && Tracked()
      ensures Elems(chain) <= scope
    {
      before, scope := data, Writable(blocks, bs');
      ChainWritable(mem, chain, blocks, bs');
    }

    /** Completes an operation that replaced the blocks `i` to `j - 1`. */
    ghost method Finish(m: Headers, c: seq<Ref>, i: nat, j: nat, parts: seq<Block>)
      requires HeapOk(m, c, blocks) && Fits(blocks, i, j, parts) && Retagged(m, mem, blocks, i, j, parts)
      requires ChainOk(mem, chain) && Elems(chain) == Elems(c) - FreeRefs(blocks[i..j]) + FreeRefs(parts)
      requires Tracked() && scope == Writable(blocks, Splice(blocks, i, j, parts))
      modifies this`blocks
      ensures Valid() && blocks == Splice(old(blocks), i, j, parts)
      ensures Intact(old(blocks), before, blocks, data)
    {
      HeapSplice(m, c, mem, chain, blocks, i, j, parts);
      blocks := Splice(blocks, i, j, parts);
      WritableKeepsPayload(old(blocks), blocks, before, data);
    }

    /** Cuts the block that starts at `node` down to `need` bytes and makes a
        free block of the `rest` bytes up to `subs`. */
    method Split(node: Ref, subs: Ref, need: nat, rest: nat)
      requires ChainOk(mem, chain) && Tracked() && Elems(chain) <= scope
      requires node.At? && node in mem && node !in chain && subs in mem && node != subs
      requires At(node.addr + need) !in chain && At(node.addr + need) !in {node, subs} && 0 < rest < WORD
      requires {node, subs, At(node.addr + need)} <= scope
      modifies this`mem, this`data, this`chain
      ensures ChainOk(mem, chain) && Elems(chain) == old(Elems(chain)) + {At(node.addr + need)} && Tracked()
      ensures node in mem &&
              SameTags(TwoParts(old(mem), node, need, rest, subs), mem[node := mem[node].(inUse := true)])
      ensures node !in chain && mem[node].inUse == old(mem)[node].inUse
    {
      SetPrevSize(subs, rest);
      SetOff(node, mem[node].(size := need));
      var tail := At(node.addr + need);
      SetOff(tail, Header(Null, Null, rest, need, false));
      ghost var m1 := mem;
      AddNode(tail);
      assert node !in Elems(chain);
      SplitTags(old(mem), m1, mem, node, need, rest, subs);
    }

    /** Splits `node` and marks it in use as mdx_fl_malloc does, if it was free. */
    method SplitOff(node: Ref, subs: Ref, need: nat, rest: nat)
      requires ChainOk(mem, chain) && Tracked() && Elems(chain) <= scope
      requires node.At? && node in mem && node !in chain && subs in mem && node != subs
      requires At(node.addr + need) !in chain && At(node.addr + need) !in {node, subs} && 0 < rest < WORD
      requires {node, subs, At(node.addr + need)} <= scope
      modifies this`mem, this`data, this`chain
      ensures ChainOk(mem, chain) && Elems(chain) == old(Elems(chain)) + {At(node.addr + need)} && Tracked()
      ensures SameTags(TwoParts(old(mem), node, need, rest, subs), mem)
    {
      Split(node, subs, need, rest);
      ghost var m := mem[node := mem[node].(inUse := true)];
      if !mem[node].inUse {
        SetOff(node, mem[node].(inUse := true, next := Null, prev := Null));
      }
      SameTagsTrans(TwoParts(old(mem), node, need, rest, subs), m, mem);
    }

    /** Both paths of mdx_fl_malloc take the node off the chain first. */
    ghost predicate Detached(m: Headers, c: seq<Ref>, node: Ref, i: nat, bs': seq<Block>)
      reads this
    {
      && HeapOk(m, c, blocks) && 0 < i < |blocks| - 1 && node == At(blocks[i].addr)
      && SameTags(m, mem) && ChainOk(mem, chain) && Elems(chain) == Elems(c) - FreeRefs(blocks[i..i + 1])
      && node !in chain
      && Tracked() && scope == Writable(blocks, bs')
    }

    /** Splits a row of blocks that is off the chain into one in use and one free. */
    method SplitRow(node: Ref, subs: Ref, need: nat, rest: nat,
                    ghost m: Headers, ghost c: seq<Ref>, ghost i: nat, ghost j: nat, ghost parts: seq<Block>)
      requires HeapOk(m, c, blocks) && Fits(blocks, i, j, parts) && j <= i + 2 && SameTags(m, mem)
      requires parts == [Block(blocks[i].addr, need, Used), Block(blocks[i].addr + need, rest, Kind.Free)]
      requires node == At(blocks[i].addr) && subs == At(blocks[j].addr)
      requires ChainOk(mem, chain) && Elems(chain) == Elems(c) - FreeRefs(blocks[i..j])
      requires Tracked() && scope == Writable(blocks, Splice(blocks, i, j, parts)) && Elems(chain) <= scope
      modifies this
      ensures Valid() && blocks == Splice(old(blocks), i, j, parts)
      ensures Intact(old(blocks), old(before), blocks, data)
    {
      SpliceHeaders(blocks, i, j, parts);
      SplitReady(m, mem, c, chain, blocks, i, j, parts);
      ghost var m1 := mem;
      SplitOff(node, subs, need, rest);
      SplitRetags(m, m1, mem, blocks, i, j, parts);
      Finish(m, c, i, j, parts);
    }

    method TakeSplit(node: Ref, need: nat, ghost i: nat, ghost m: Headers, ghost c: seq<Ref>)
      requires i < |blocks| && blocks[i].kind.Free? && need + NODE_S < blocks[i].size && NODE_S < need && need % 16 == 0
      requires Detached(m, c, node, i, Splice(blocks, i, i + 1, Carved(blocks[i], need))) && Elems(chain) <= scope
      modifies this
      ensures Valid() && blocks == Splice(old(blocks), i, i + 1, Carved(old(blocks)[i], need))
      ensures Intact(old(blocks), old(before), blocks, data)
    {
      CarvedFits(blocks, i, need);
      assert TagAt(m, blocks, i) && JoinedAt(blocks, i);
      var next := At(node.addr + mem[node].size);
      SplitRow(node, next, need, mem[node].size - need, m, c, i, i + 1, Carved(blocks[i], need));
    }

    method TakeWhole(node: Ref, need: nat, ghost i: nat, ghost m: Headers, ghost c: seq<Ref>)
      requires i < |blocks| && blocks[i].kind.Free? && NODE_S < need <= blocks[i].size <= need + NODE_S &&
               need % 16 == 0
      requires Detached(m, c, node, i, Splice(blocks, i, i + 1, Carved(blocks[i], need)))
      modifies this
      ensures Valid() && blocks == Splice(old(blocks), i, i + 1, Carved(old(blocks)[i], need))
      ensures Intact(old(blocks), old(before), blocks, data)
    {
      ghost var parts := Carved(blocks[i], need);
      CarvedFits(blocks, i, need);
      SpliceHeaders(blocks, i, i + 1, parts);
      ghost var m1 := mem;
      assert TagAt(m, blocks, i);
      SetOff(node, mem[node].(inUse := true, next := Null, prev := Null));
      WholeRetags(m, m1, mem, blocks, i, parts[0]);
      FreeRefsOne(parts[0]);
      Finish(m, c, i, i + 1, parts);
    }

    /** Puts the free block `i` to use. */
    method Take(node: Ref, need: nat, ghost i: nat)
      requires Valid() && i < |blocks| && blocks[i].kind.Free? && node == At(blocks[i].addr)
      requires NODE_S < need <= blocks[i].size && need % 16 == 0
      modifies this
      ensures Valid() && blocks == Splice(old(blocks), i, i + 1, Carved(old(blocks)[i], need))
      ensures Intact(old(blocks), old(data), blocks, data)
    {
      ghost var m, c := mem, chain;
      CarvedFits(blocks, i, need);
      Begin(Splice(blocks, i, i + 1, Carved(blocks[i], need)));
      FreeInChain(mem, chain, blocks, i);
      FreeRefsRow(blocks, i, i + 1);
      FreeRefsOne(blocks[i]);
      Unlink(node);
      assert node !in Elems(chain);
      if mem[node].size - need > NODE_S {
        TakeSplit(node, need, i, m, c);
      } else {
        TakeWhole(node, need, i, m, c);
      }
    }

    /** mdx_fl_malloc.  A request whose sum wraps is served as one of 8 bytes. */
    method Malloc(size: nat) returns (p: nat)
      requires Valid() && Servable(size)
      modifies this
      ensures Valid() && FreeListSpec.Malloc(old(blocks), Served(size), blocks, p)
      ensures Need(size) < SIZE_T ==> FreeListSpec.Malloc(old(blocks), size, blocks, p)
      ensures p != 0 ==> Exchanged(old(blocks), blocks, 0, p)
      ensures p != 0 ==> Sized(blocks, p, Need(Served(size)), Need(Served(size)) + NODE_S)
      ensures Need(size) >= SIZE_T && p != 0 ==> Sized(blocks, p, 32, 56) && 56 < size
      ensures p == 0 ==> blocks == old(blocks) && data == old(data)
      ensures Intact(old(blocks), old(data), blocks, data)
    {
      p := MallocServed(size);
      MallocPromise(old(blocks), size, blocks, p);
    }

    method MallocServed(size: nat) returns (p: nat)
      requires Valid() && Servable(size)
      modifies this
      ensures Valid() && FreeListSpec.Malloc(old(blocks), Served(size), blocks, p)
      ensures p == 0 ==> data == old(data)
      ensures Intact(old(blocks), old(data), blocks, data)
    {
      if size == 0 {
        return 0;
      }
      var need := Rounded(size);
      ServedNeed(size);
      NodesAreWords(mem, chain, blocks);
      var node := FindFit(need);
      if node == Null {
        NoNodeNoFit(mem, chain, blocks, need);
        return 0;
      }
      p := TakeFit(node, need, Served(size));
    }

    /** The second half of mdx_fl_malloc, with the node found. */
    method TakeFit(node: Ref, need: nat, ghost size: nat) returns (p: nat)
      requires Valid() && size > 0 && need == Need(size) && node in chain && node.At? && mem[node].size >= need
      requires forall r <- chain :: mem[r].size >= need ==> mem[node].size <= mem[r].size
      modifies this
      ensures Valid() && FreeListSpec.Malloc(old(blocks), size, blocks, p) && p != 0
      ensures Intact(old(blocks), old(data), blocks, data)
    {
      ghost var i := BlockOfNode(mem, chain, blocks, node);
      NodeIsBestFit(mem, chain, blocks, i, need);
      Take(node, need, i);
      p := node.addr + NODE_S;
      TakenIsMalloc(old(blocks), size, i);
    }

    /** Makes `node`, off the chain, `extra` bytes longer, up to `subs`. */
    method Grow(node: Ref, extra: nat, subs: Ref)
      requires ChainOk(mem, chain) && node !in chain && node in mem && subs in mem && node != subs
      requires Tracked() && node in scope && subs in scope
      modifies this`mem, this`data
      ensures ChainOk(mem, chain) && Tracked() && Others(old(mem), mem, {node, subs})
      ensures node in mem && mem[node] == old(mem)[node].(size := old(mem)[node].size + extra)
      ensures subs in mem && SameTag(old(mem)[subs].(prevSize := mem[node].size), mem[subs])
    {
      SetOff(node, mem[node].(size := mem[node].size + extra));
      SetPrevSize(subs, mem[node].size);
    }

    /** The first half of mdx_fl_free: joins a free successor. */
    method JoinNext(node: Ref, ghost j: nat, ghost m: Headers) returns (next: Ref)
      requires HeapOk(m, chain, blocks) && j < |blocks| && blocks[j].kind == Used && node == At(blocks[j].addr)
      requires node in m && mem == m[node := m[node].(inUse := false)] && ChainOk(mem, chain)
      requires Tracked() && Elems(chain) <= scope && HeaderRefs(blocks) <= scope
      modifies this`mem, this`data, this`chain
      ensures NextJoined(m, old(chain), mem, chain, blocks, j) && next == At(blocks[MergeTo(blocks, j)].addr)
      ensures ChainOk(mem, chain) && Tracked()
    {
      NextFacts(m, chain, blocks, j);
      next := At(node.addr + mem[node].size);
      if !mem[next].inUse {
        var subseq := At(next.addr + mem[next].size);
        ghost var m0 := mem;
        Unlink(next);
        assert node !in Elems(chain);
        Grow(node, mem[next].size, subseq);
        next := subseq;
      }
    }

    /** The second half of mdx_fl_free: joins a free predecessor. */
    method JoinPrev(node: Ref, next: Ref, ghost j: nat, ghost m: Headers, ghost c: seq<Ref>) returns (whole: Ref)
      requires HeapOk(m, c, blocks) && j < |blocks| && blocks[j].kind == Used && node == At(blocks[j].addr)
      requires NextJoined(m, c, mem, chain, blocks, j) && next == At(blocks[MergeTo(blocks, j)].addr)
      requires ChainOk(mem, chain) && Tracked() && Elems(chain) <= scope && HeaderRefs(blocks) <= scope
      modifies this`mem, this`data, this`chain
      ensures Joined2(m, c, mem, chain, blocks, j) && whole == At(blocks[MergeFrom(blocks, j)].addr)
      ensures ChainOk(mem, chain) && Tracked() && Elems(chain) <= scope
    {
      PrevFacts(m, c, blocks, j);
      var prev := At(node.addr - mem[node].prevSize);
      whole := node;
      if !mem[prev].inUse {
        assert prev in Elems(chain);
        Unlink(prev);
        assert prev !in Elems(chain);
        Grow(prev, mem[node].size, next);
        whole := prev;
      }
    }

    /** mdx_fl_free */
    method Free(p: nat)
      requires Valid() && (p == 0 || Live(blocks, p))
      modifies this
      ensures Valid()
      ensures p == 0 ==> blocks == old(blocks) && data == old(data)
      ensures forall j: nat :: p != 0 && Owns(old(blocks), j, p) ==> blocks == Freed(old(blocks), j)
      ensures p != 0 ==> Exchanged(old(blocks), blocks, p, 0) && !Live(blocks, p)
      ensures forall j: nat :: Owns(old(blocks), j, p) ==>
                FreeTotal(blocks) == FreeTotal(old(blocks)) + old(blocks)[j].size
      ensures forall j: nat, x: nat :: Owns(old(blocks), j, p) ==>
                (FreeAt(blocks, x) <==> FreeAt(old(blocks), x) || old(blocks)[j].addr <= x < old(blocks)[j].End())
      ensures Intact(old(blocks), old(data), blocks, data)
    {
      if p == 0 {
        return;
      }
      ghost var j: nat :| Owns(blocks, j, p);
      OwnerUnique(blocks, p);
      FreeBlock(At(p - NODE_S), j);
      FreedAccount(old(blocks), j, p);
    }

    method FreeBlock(node: Ref, ghost j: nat)
      requires Valid() && j < |blocks| && blocks[j].kind == Used && node == At(blocks[j].addr)
      modifies this
      ensures Valid() && blocks == Freed(old(blocks), j)
      ensures Intact(old(blocks), old(data), blocks, data)
    {
      ghost var m, c := mem, chain;
      NextFacts(mem, chain, blocks, j);
      MergedFits(blocks, j);
      ghost var i, k := MergeFrom(blocks, j), MergeTo(blocks, j);
      ghost var parts := Merged(blocks, i, k);
      Begin(Freed(blocks, j));
      SetOff(node, mem[node].(inUse := false));
      var next := JoinNext(node, j, m);
      var whole := JoinPrev(node, next, j, m, c);
      ghost var m1 := mem;
      WholeReady(m, c, mem, chain, blocks, j);
      AddNode(whole);
      ReleasedRetags(m, m1, mem, c, blocks, j);
      Finish(m, c, i, k, parts);
    }

    /** The paths of mdx_fl_realloc that take in the free successor and split
        off what is left. */
    method AbsorbSplit(node: Ref, need: nat, ghost j: nat)
      requires Valid() && j + 1 < |blocks| && blocks[j].kind == Used && blocks[j + 1].kind.Free? &&
               node == At(blocks[j].addr)
      requires need > NODE_S && need % 16 == 0 && Resized(blocks, j, need).InPlace? &&
               |Resized(blocks, j, need).parts| == 2
      modifies this
      ensures Valid() && blocks == Splice(old(blocks), j, j + 2, Resized(old(blocks), j, need).parts)
      ensures Intact(old(blocks), old(data), blocks, data)
    {
      ghost var m, c, parts := mem, chain, Resized(blocks, j, need).parts;
      ResizedFits(blocks, j, need);
      NextFacts(m, c, blocks, j);
      Begin(Splice(blocks, j, j + 2, parts));
      var next := At(node.addr + mem[node].size);
      var subs := At(next.addr + mem[next].size);
      Unlink(next);
      SplitRow(node, subs, need, mem[next].size + mem[node].size - need, m, c, j, j + 2, parts);
    }

    /** Shrinking before a block in use: the end becomes a free block. */
    method ShrinkSplit(node: Ref, need: nat, ghost j: nat)
      requires Valid() && j + 1 < |blocks| && blocks[j].kind == Used && !blocks[j + 1].kind.Free? &&
               node == At(blocks[j].addr)
      requires need > NODE_S && need % 16 == 0 && blocks[j].size > need + NODE_S
      modifies this
      ensures Valid() && blocks == Splice(old(blocks), j, j + 1, Resized(old(blocks), j, need).parts)
      ensures Intact(old(blocks), old(data), blocks, data)
    {
      ghost var parts := Resized(blocks, j, need).parts;
      ResizedFits(blocks, j, need);
      NextFacts(mem, chain, blocks, j);
      Begin(Splice(blocks, j, j + 1, parts));
      SplitRow(node, At(node.addr + mem[node].size), need, mem[node].size - need, mem, chain, j, j + 1, parts);
    }

    /** Makes one block in use of a row of two whose second is off the chain. */
    method GrowRow(node: Ref, extra: nat, subs: Ref, ghost m: Headers, ghost c: seq<Ref>, ghost j: nat, ghost b: Block)
      requires HeapOk(m, c, blocks) && Fits(blocks, j, j + 2, [b]) && SameTags(m, mem)
      requires b.kind == Used && blocks[j].kind == Used && b.size == blocks[j].size + extra
      requires node == At(blocks[j].addr) && subs == At(blocks[j + 2].addr) && node != subs && subs in mem &&
               node in mem
      requires ChainOk(mem, chain) && Elems(chain) == Elems(c) - FreeRefs(blocks[j..j + 2]) && node !in chain
      requires Tracked() && scope == Writable(blocks, Splice(blocks, j, j + 2, [b])) && mem[node].size == blocks[j].size
      modifies this
      ensures Valid() && blocks == Splice(old(blocks), j, j + 2, [b])
      ensures Intact(old(blocks), old(before), blocks, data)
    {
      ghost var m1 := mem;
      SpliceHeaders(blocks, j, j + 2, [b]);
      Grow(node, extra, subs);
      GrownRetags(m, m1, mem, c, blocks, j, b);
      FreeRefsOne(b);
      Finish(m, c, j, j + 2, [b]);
    }

    /** Growing by exactly the free successor. */
    method AbsorbWhole(node: Ref, need: nat, ghost j: nat)
      requires Valid() && j + 1 < |blocks| && blocks[j].kind == Used && blocks[j + 1].kind.Free? &&
               node == At(blocks[j].addr)
      requires need > NODE_S && need % 16 == 0 && blocks[j].size + blocks[j + 1].size == need
      modifies this
      ensures Valid() && blocks == Splice(old(blocks), j, j + 2, Resized(old(blocks), j, need).parts)
      ensures Intact(old(blocks), old(data), blocks, data)
    {
      ghost var m, c, parts := mem, chain, Resized(blocks, j, need).parts;
      NextFacts(m, c, blocks, j);
      ResizedFits(blocks, j, need);
      Begin(Splice(blocks, j, j + 2, parts));
      var next := At(node.addr + mem[node].size);
      var subs := At(next.addr + mem[next].size);
      Unlink(next);
      assert node !in Elems(chain);
      GrowRow(node, mem[next].size, subs, m, c, j, parts[0]);
    }

    /** The in-place paths of mdx_fl_realloc. */
    method Resize(node: Ref, need: nat, ghost j: nat) returns (done: bool)
      requires Valid() && j < |blocks| && blocks[j].kind == Used && node == At(blocks[j].addr)
      requires need > NODE_S && need % 16 == 0
      modifies this
      ensures 0 < j < |old(blocks)| - 1
      ensures var r := Resized(old(blocks), j, need);
              && done == r.InPlace?
              && (done ==> j + r.taken <= |old(blocks)| && blocks == Splice(old(blocks), j, j + r.taken, r.parts))
              && (!done ==> blocks == old(blocks) && mem == old(mem) && data == old(data))
      ensures done == CanStay(old(blocks), j, need)
      ensures Valid() && Intact(old(blocks), old(data), blocks, data)
    {
      NextFacts(mem, chain, blocks, j);
      ResizedFits(blocks, j, need);
      assert TagAt(mem, blocks, j + 1);
      var next := At(node.addr + mem[node].size);
      done := true;
      if need <= mem[node].size {
        if !mem[next].inUse {
          AbsorbSplit(node, need, j);
        } else if mem[node].size > need + NODE_S {
          ShrinkSplit(node, need, j);
        } else {
          assert blocks == Splice(blocks, j, j + 1, [blocks[j]]);
        }
      } else if !mem[next].inUse && mem[node].size + mem[next].size > need + NODE_S {
        AbsorbSplit(node, need, j);
      } else if !mem[next].inUse && mem[node].size + mem[next].size == need {
        AbsorbWhole(node, need, j);
      } else {
        done := false;
      }
    }

    method CopyBytes(dst: nat, src: nat, n: nat)
      requires dst + n <= src || src + n <= dst
      modifies this`data
      ensures CopyOf(old(data), data, dst, src, n)
    {
      for i := 0 to n
        invariant CopyOf(old(data), data, dst, src, i)
      {
        ghost var d := data;
        if src + i in data {
          data := data[dst + i := data[src + i]];
        } else {
          data := data - {dst + i};
        }
        CopyOne(old(data), d, data, dst, src, i);
      }
    }

    /** The last path of mdx_fl_realloc: allocate, copy, release. */
    method MoveBlock(p: nat, need: nat, ghost j: nat) returns (q: nat)
      requires Valid() && Owns(blocks, j, p) && blocks[j].size < need && Need(need) < SIZE_T
      modifies this
      ensures Valid() && Moved(old(blocks), p, need, blocks, q)
      ensures q == 0 ==> blocks == old(blocks) && data == old(data)
      ensures q == 0 <==> NoFit(old(blocks), Need(need))
      ensures q != 0 ==> Exchanged(old(blocks), blocks, p, q) && Sized(blocks, q, Need(need), Need(need) + NODE_S)
      ensures q != 0 ==> PrefixKept(old(data), p, data, q, old(blocks)[j].size - NODE_S)
      ensures OthersIntact(old(blocks), p, old(data), data)
    {
      ghost var bs, d := blocks, data;
      assert BlockAt(bs, j);
      q := Malloc(need);
      if q != 0 {
        ghost var mid, d1 := blocks, data;
        ghost var jq, jp := MoveFacts(bs, need, mid, p, q, j);
        assert TagAt(mem, mid, jp);
        CopyBytes(q, p, mem[At(p - NODE_S)].size);
        ghost var d2 := data;
        FreeBlock(At(p - NODE_S), jp);
        MoveKeeps(bs, d, mid, d1, d2, blocks, data, p, q, j, jq, jp, need);
        MovedExchanges(bs, p, need, blocks, q);
      }
    }

    /** mdx_fl_realloc, on the zone that its copy path releases into. */
    method Realloc(p: nat, size: nat) returns (q: nat)
      requires Valid() && (p == 0 || Live(blocks, p)) && Servable(size)
      requires p != 0 ==> Need(Need(Served(size))) < SIZE_T
      modifies this
      ensures Valid() && BlocksOk(old(blocks)) && FreeListSpec.Realloc(old(blocks), p, Served(size), blocks, q)
      ensures Served(size) == size <==> Need(size) < SIZE_T
      ensures q != 0 || size == 0 ==> Exchanged(old(blocks), blocks, p, q)
      ensures q != 0 ==> Sized(blocks, q, Need(Served(size)), Need(Need(Served(size))) + NODE_S)
      ensures forall j: nat :: p != 0 && size != 0 && Owns(old(blocks), j, p) ==>
                j + 1 < |old(blocks)| && Regrown(old(blocks), blocks, j, p, Need(Served(size)), q)
      ensures OthersIntact(old(blocks), p, old(data), data)
      ensures forall j: nat :: p != 0 && q != 0 && Owns(old(blocks), j, p) ==>
                PrefixKept(old(data), p, data, q, Min(old(blocks)[j].size - NODE_S, Served(size)))
      ensures p != 0 && size != 0 && q == 0 ==> blocks == old(blocks) && data == old(data)
    {
      ghost var bs, d := blocks, data;
      ServedAs(size);
      if p == 0 {
        q := Malloc(size);
        MallocIntact(bs, d, Served(size), blocks, data, q);
        ghost var n := Need(Served(size));
        if q != 0 {
          SizedWider(blocks, q, n, n + NODE_S, n, Need(n) + NODE_S);
        } else {
          NothingExchanged(blocks);
        }
        return;
      }
      ghost var j: nat :| Owns(blocks, j, p);
      OwnerUnique(blocks, p);
      if size == 0 {
        Free(p);
        FreedIntact(bs, d, j, p, data);
        return 0;
      }
      ServedNeed(size);
      var need := Rounded(size);
      q := ReallocLive(p, need, j, Served(size));
      assert Regrown(bs, blocks, j, p, need, q);
    }

    /** The rest of mdx_fl_realloc: a live block and a size to give it. */
    method ReallocLive(p: nat, need: nat, ghost j: nat, ghost size: nat) returns (q: nat)
      requires Valid() && Owns(blocks, j, p) && p != 0 && 0 < size && need == Need(size) && Need(need) < SIZE_T
      modifies this
      ensures Valid() && BlocksOk(old(blocks)) && FreeListSpec.Realloc(old(blocks), p, size, blocks, q)
      ensures OthersIntact(old(blocks), p, old(data), data)
      ensures j + 1 < |old(blocks)| && Regrown(old(blocks), blocks, j, p, need, q)
      ensures q != 0 ==> PrefixKept(old(data), p, data, q, Min(old(blocks)[j].size - NODE_S, size))
      ensures q == 0 ==> blocks == old(blocks) && data == old(data)
    {
      ghost var bs, d := blocks, data;
      var done := Resize(At(p - NODE_S), need, j);
      if done {
        q := p;
        InPlaceKeeps(bs, d, j, p, size, blocks, data);
        ReallocRegrows(bs, j, p, size, blocks, q);
      } else {
        q := ReallocMove(p, need, j, size);
      }
    }

    /** mdx_fl_realloc of a block that cannot grow where it is. */
    method ReallocMove(p: nat, need: nat, ghost j: nat, ghost size: nat) returns (q: nat)
      requires Valid() && Owns(blocks, j, p) && p != 0 && 0 < size && need == Need(size) && Need(need) < SIZE_T
      requires j + 1 < |blocks| && Resized(blocks, j, need).Move?
      modifies this
      ensures Valid() && BlocksOk(old(blocks)) && FreeListSpec.Realloc(old(blocks), p, size, blocks, q)
      ensures OthersIntact(old(blocks), p, old(data), data)
      ensures Regrown(old(blocks), blocks, j, p, need, q)
      ensures q != 0 ==> PrefixKept(old(data), p, data, q, Min(old(blocks)[j].size - NODE_S, size))
      ensures q == 0 ==> blocks == old(blocks) && data == old(data)
    {
      ghost var bs, d := blocks, data;
      ResizeMoves(bs, j, need);
      q := MoveBlock(p, need, j);
      MoveIsRealloc(bs, j, p, size, blocks, q);
      ReallocRegrows(bs, j, p, size, blocks, q);
      ShorterPrefix(d, p, data, q, bs[j].size - NODE_S, Min(bs[j].size - NODE_S, size));
    }

    /** mdx_fl_add_region */
    method AddRegion(base: nat, size: nat)
      requires Valid() && size > 3 * NODE_S && RegionApart(blocks, base, size) && Total(blocks) + size < 0x8000_0000
      modifies this
      ensures Valid() && blocks == old(blocks) + Region(base, size)
      ensures forall x: nat ::
                FreeAt(blocks, x) <==> FreeAt(old(blocks), x) || base + NODE_S <= x < base + size - NODE_S
      ensures FreeTotal(blocks) == FreeTotal(old(blocks)) + size - 2 * NODE_S
      ensures Intact(old(blocks), old(data), blocks, data)
    {
      ghost var m, c, bs' := mem, chain, blocks + Region(base, size);
      RegionHeaders(m, c, blocks, base, size);
      Begin(bs');
      var first, node, last := At(base), At(base + NODE_S), At(base + size - NODE_S);
      SetOff(first, Header(Null, Null, NODE_S, 0, true));
      SetOff(node, Header(Null, Null, size - 2 * NODE_S, NODE_S, false));
      AddNode(node);
      assert last !in Elems(chain);
      ghost var m1 := mem;
      SetOff(last, Header(Null, Null, NODE_S, size - 2 * NODE_S, true));
      RegionRetags(m, m1, mem, blocks, base, size);
      HeapRegion(m, c, mem, chain, blocks, base, size);
      forall x: nat
        ensures FreeAt(bs', x) <==> FreeAt(blocks, x) || base + NODE_S <= x < base + size - NODE_S
      {
        RegionFree(blocks, base, size, x);
      }
      RegionTotal(blocks, base, size);
      blocks := bs';
      WritableKeepsPayload(old(blocks), blocks, before, data);
    }

    /** mdx_fl_count: the bytes of all free blocks. */
    method Count() returns (n: nat)
      requires Valid()
      ensures n == FreeTotal(blocks)
    {
      n := 0;
      var node := Head(0);
      ghost var k := 0;
      assert Null !in chain;
      while node != Null
        invariant 0 <= k <= |chain| && node == (if k < |chain| then chain[k] else Null)
        invariant node != Null ==> node in chain
        invariant k < |chain| ==> node != Null
        invariant n == SumSizes(mem, chain[..k])
        decreases |chain| - k
      {
        assert LinkAt(mem, chain, k);
        assert chain[..k + 1][..k] == chain[..k];
        n := n + mem[node].size;
        node := mem[node].next;
        k := k + 1;
      }
      assert chain[..k] == chain;
      CountIsFreeTotal(mem, chain, blocks);
    }
  }

  ghost function HeadChain(): (chain: seq<Ref>)
    ensures |chain| == HEADS && forall i :: 0 <= i < HEADS ==> chain[i] == Head(i)
  {
    seq(HEADS, (i: nat) => Head(i))
  }

  /** Head `k` once the first `n` heads are threaded. */
  function EmptyHead(k: nat, n: nat): Header {
    Header(if k + 1 < n then Head(k + 1) else Null, if 0 < k < n then Head(k - 1) else Null, 0, 0, false)
  }

  /** mdx_fl_init: zeroes the heads and threads them into an empty chain. */
  method InitHeads() returns (m: Headers)
    ensures HeadsThreaded(m, HEADS)
  {
    m := map i: nat | 0 <= i < HEADS :: Head(i) := Header(Null, Null, 0, 0, false);
    for i := 1 to HEADS
      invariant HeadsThreaded(m, i)
    {
      assert HeadAt(m, i - 1, i) && HeadAt(m, i, i);
      ghost var m0 := m;
      m := m[Head(i - 1) := m[Head(i - 1)].(next := Head(i))];
      m := m[Head(i) := m[Head(i)].(prev := Head(i - 1))];
      ghost var n := i + 1;
      forall k: nat | k < HEADS
        ensures HeadAt(m, k, n)
      {
        assert HeadAt(m0, k, i);
      }
    }
  }

  ghost predicate HeadAt(m: Headers, k: nat, n: nat) {
    Head(k) in m && m[Head(k)] == EmptyHead(k, n)
  }

  ghost predicate HeadsThreaded(m: Headers, n: nat) {
    forall k: nat :: k < HEADS ==> HeadAt(m, k, n)
  }

  lemma EmptyHeap(m: Headers)
    requires HeadsThreaded(m, HEADS)
    ensures HeapOk(m, HeadChain(), [])
  {
    var chain := HeadChain();
    EmptyChain(m, chain);
    assert Elems(chain) == HeadRefs() by {
      forall r | r in HeadRefs()
        ensures r in chain
      {
        assert chain[r.i] == r;
      }
    }
  }

  lemma EmptyChain(m: Headers, chain: seq<Ref>)
    requires HeadsThreaded(m, HEADS)
    requires |chain| == HEADS && forall i :: 0 <= i < HEADS ==> chain[i] == Head(i)
    ensures ChainOk(m, chain)
  {
    forall k | 0 <= k < |chain|
      ensures LinkAt(m, chain, k)
    {
      assert HeadAt(m, k, HEADS);
    }
    forall j | 0 <= j < |chain| - 1
      ensures SortedAt(m, chain, j)
    {
      LowGrows(j, j + 1);
    }
    forall i | 0 <= i < HEADS
      ensures Head(i) in chain && Head(i) in m && m[Head(i)].size == 0
    {
      assert chain[i] == Head(i) && HeadAt(m, i, HEADS);
    }
  }

  /** The headers of a new region are none of the zone's. */
  lemma RegionHeaders(m: Headers, c: seq<Ref>, bs: seq<Block>, base: nat, size: nat)
    requires HeapOk(m, c, bs) && size > 3 * NODE_S && RegionApart(bs, base, size)
    ensures forall x :: base <= x < base + size ==> At(x) !in c && At(x) !in HeaderRefs(bs)
    ensures {At(base), At(base + NODE_S), At(base + size - NODE_S)} <= HeaderRefs(bs + Region(base, size))
  {
    forall k | 0 <= k < |bs|
      ensures !(base <= bs[k].addr < base + size)
    {
      assert OutsideAt(bs, k, base, size) && BlockAt(bs, k);
    }
    assert FreeRefs(bs) <= HeaderRefs(bs);
    assert forall r <- c :: r in Elems(c);
    var bs', n := bs + Region(base, size), |bs|;
    assert bs'[n].addr == base && bs'[n + 1].addr == base + NODE_S && bs'[n + 2].addr == base + size - NODE_S;
  }

  lemma RegionRetags(m: Headers, m1: Headers, m': Headers, bs: seq<Block>, base: nat, size: nat)
    requires size > 3 * NODE_S
    requires forall x :: base <= x < base + size ==> At(x) !in HeaderRefs(bs)
    requires SameTags(m[At(base) := Header(Null, Null, NODE_S, 0, true)]
                       [At(base + NODE_S) := Header(Null, Null, size - 2 * NODE_S, NODE_S, false)], m1)
    requires m' == m1[At(base + size - NODE_S) := Header(Null, Null, NODE_S, size - 2 * NODE_S, true)]
    ensures RegionTagged(m, m', bs, base, size)
  {
    forall k | 0 <= k < |bs|
      ensures KeptAt(m, m', bs, k)
    {
      assert At(bs[k].addr) in HeaderRefs(bs);
    }
  }

  function Min(a: int, b: int): int { if a < b then a else b }

  lemma ShorterPrefix(d: Bytes, p: nat, d': Bytes, q: nat, n: int, k: int)
    requires k <= n
    ensures PrefixKept(d, p, d', q, n) ==> PrefixKept(d, p, d', q, k)
  {
  }

  lemma InPlaceIsRealloc(bs: seq<Block>, j: nat, p: nat, size: nat, bs': seq<Block>)
    requires BlocksOk(bs) && Owns(bs, j, p) && p != 0 && size > 0 && j + 1 < |bs|
    requires var r := Resized(bs, j, Need(size));
             r.InPlace? && j + r.taken <= |bs| && bs' == Splice(bs, j, j + r.taken, r.parts)
    ensures FreeListSpec.Realloc(bs, p, size, bs', p)
  {
    assert ReallocOf(bs, j, p, size, bs', p);
  }

  lemma InPlaceKeeps(bs: seq<Block>, d: Bytes, j: nat, p: nat, size: nat, bs': seq<Block>, d': Bytes)
    requires BlocksOk(bs) && Owns(bs, j, p) && p != 0 && size > 0 && j + 1 < |bs| && Intact(bs, d, bs', d')
    requires var r := Resized(bs, j, Need(size));
             r.InPlace? && j + r.taken <= |bs| && bs' == Splice(bs, j, j + r.taken, r.parts)
    ensures FreeListSpec.Realloc(bs, p, size, bs', p)
    ensures OthersIntact(bs, p, d, d') && PrefixKept(d, p, d', p, Min(bs[j].size - NODE_S, size))
  {
    ResizedIntact(bs, d, j, p, size, bs', d');
    InPlaceIsRealloc(bs, j, p, size, bs');
  }

  lemma MoveIsRealloc(bs: seq<Block>, j: nat, p: nat, size: nat, bs': seq<Block>, q: nat)
    requires BlocksOk(bs) && Owns(bs, j, p) && p != 0 && size > 0 && j + 1 < |bs|
    requires Resized(bs, j, Need(size)).Move? && Moved(bs, p, Need(size), bs', q)
    ensures FreeListSpec.Realloc(bs, p, size, bs', q)
  {
    assert ReallocOf(bs, j, p, size, bs', q);
  }

  /** Only a block that has to grow moves. */
  lemma ResizeMoves(bs: seq<Block>, j: nat, need: nat)
    requires j + 1 < |bs| && Resized(bs, j, need).Move?
    ensures bs[j].size < need
  {
  }

  /** If the other blocks in use are still there, their payloads are untouched. */
  lemma IntactOthers(bs: seq<Block>, d: Bytes, bs': seq<Block>, d': Bytes, p: nat)
    requires Intact(bs, d, bs', d')
    requires forall k: nat :: k < |bs| && bs[k].kind == Used && bs[k].addr + NODE_S != p ==> bs[k] in bs'
    ensures OthersIntact(bs, p, d, d')
  {
    forall k: nat, x: nat | PayloadOf(bs, k, x) && bs[k].addr + NODE_S != p && x in d
      ensures x in d' && d'[x] == d[x]
    {
      PayloadIn(bs', bs[k], x);
      assert Payload(bs, x);
    }
  }

  lemma MallocIntact(bs: seq<Block>, d: Bytes, size: nat, bs': seq<Block>, d': Bytes, q: nat)
    requires FreeListSpec.Malloc(bs, size, bs', q) && Intact(bs, d, bs', d')
    ensures OthersIntact(bs, 0, d, d')
  {
    forall k: nat | k < |bs| && bs[k].kind == Used
      ensures bs[k] in bs'
    {
      MallocKeepsUsed(bs, size, bs', q, k);
    }
    IntactOthers(bs, d, bs', d', 0);
  }

  lemma FreedIntact(bs: seq<Block>, d: Bytes, j: nat, p: nat, d': Bytes)
    requires BlocksOk(bs) && Owns(bs, j, p) && Intact(bs, d, Freed(bs, j), d')
    ensures OthersIntact(bs, p, d, d')
  {
    forall k: nat | k < |bs| && bs[k].kind == Used && bs[k].addr + NODE_S != p
      ensures bs[k] in Freed(bs, j)
    {
      FreedKeepsUsed(bs, j, k);
    }
    IntactOthers(bs, d, Freed(bs, j), d', p);
  }

  lemma ResizedIntact(bs: seq<Block>, d: Bytes, j: nat, p: nat, size: nat, bs': seq<Block>, d': Bytes)
    requires BlocksOk(bs) && Owns(bs, j, p) && j + 1 < |bs| && Intact(bs, d, bs', d')
    requires var r := Resized(bs, j, Need(size));
             r.InPlace? && j + r.taken <= |bs| && bs' == Splice(bs, j, j + r.taken, r.parts)
    ensures OthersIntact(bs, p, d, d')
    ensures PrefixKept(d, p, d', p, Min(bs[j].size - NODE_S, size))
  {
    var r := Resized(bs, j, Need(size));
    assert bs'[j] == r.parts[0];
    forall x: nat | p <= x < p + Min(bs[j].size - NODE_S, size) && x in d
      ensures x in d' && d'[x] == d[x]
    {
      PayloadIn(bs, bs[j], x);
      PayloadIn(bs', bs'[j], x);
    }
    forall k: nat | k < |bs| && bs[k].kind == Used && bs[k].addr + NODE_S != p
      ensures bs[k] in bs'
    {
      StaysInSplice(bs, j, j + r.taken, r.parts, k);
    }
    IntactOthers(bs, d, bs', d', p);
  }

  /** After the allocation of a move: the new block is large enough and apart from the old one. */
  lemma MoveFacts(bs: seq<Block>, need: nat, mid: seq<Block>, p: nat, q: nat, j: nat) returns (jq: nat, jp: nat)
    requires BlocksOk(bs) && BlocksOk(mid) && FreeListSpec.Malloc(bs, need, mid, q) && q != 0
    requires Owns(bs, j, p) && NODE_S < bs[j].size < need
    ensures Owns(mid, jq, q) && mid[jq].size >= need + NODE_S
    ensures Owns(mid, jp, p) && mid[jp] == bs[j] && jp != jq
    ensures q + bs[j].size <= p || p + bs[j].size <= q
  {
    jq := MallocOwns(bs, need, mid, q);
    MallocKeepsUsed(bs, need, mid, q, j);
    var k :| 0 <= k < |mid| && mid[k] == bs[j];
    jp := k;
    assert Owns(bs, j, p);
    if jp < jq { assert ApartAt(mid, jp, jq); } else if jq < jp { assert ApartAt(mid, jq, jp); }
  }

  lemma MoveKeeps(bs: seq<Block>, d: Bytes, mid: seq<Block>, d1: Bytes, d2: Bytes, bs': seq<Block>, d': Bytes,
                  p: nat, q: nat, j: nat, jq: nat, jp: nat, need: nat)
    requires BlocksOk(bs) && BlocksOk(mid) && FreeListSpec.Malloc(bs, need, mid, q) && q != 0
    requires Owns(bs, j, p) && NODE_S < bs[j].size < need
    requires Owns(mid, jq, q) && mid[jq].size >= need + NODE_S && Owns(mid, jp, p) && mid[jp] == bs[j] && jp != jq
    requires Intact(bs, d, mid, d1) && CopyOf(d1, d2, q, p, bs[j].size)
    requires bs' == Freed(mid, jp) && Intact(mid, d2, bs', d')
    ensures Moved(bs, p, need, bs', q)
    ensures PrefixKept(d, p, d', q, bs[j].size - NODE_S)
    ensures OthersIntact(bs, p, d, d')
  {
    MovePrefix(bs, d, mid, d1, d2, bs', d', p, q, j, jq, jp);
    forall k: nat, x: nat | PayloadOf(bs, k, x) && bs[k].addr + NODE_S != p && x in d
      ensures x in d' && d'[x] == d[x]
    {
      OtherByteKept(bs, mid, k, x, p, q, jq, jp, need);
      assert ByteAt(d2, x) == ByteAt(d1, x);
    }
  }

  lemma MovePrefix(bs: seq<Block>, d: Bytes, mid: seq<Block>, d1: Bytes, d2: Bytes, bs': seq<Block>, d': Bytes,
                   p: nat, q: nat, j: nat, jq: nat, jp: nat)
    requires BlocksOk(mid) && Owns(bs, j, p) && NODE_S < bs[j].size
    requires Owns(mid, jq, q) && mid[jq].size >= bs[j].size + NODE_S && Owns(mid, jp, p) && mid[jp] == bs[j] && jp != jq
    requires Intact(bs, d, mid, d1) && CopyOf(d1, d2, q, p, bs[j].size)
    requires bs' == Freed(mid, jp) && Intact(mid, d2, bs', d')
    ensures PrefixKept(d, p, d', q, bs[j].size - NODE_S)
  {
    FreedKeepsUsed(mid, jp, jq);
    forall x: nat | p <= x < p + (bs[j].size - NODE_S) && x in d
      ensures q + (x - p) in d' && d'[q + (x - p)] == d[x]
    {
      PayloadIn(bs, bs[j], x);
      PayloadIn(mid, mid[jp], x);
      var y := q + (x - p);
      assert ByteAt(d2, y) == ByteAt(d1, x);
      PayloadIn(mid, mid[jq], y);
      PayloadIn(bs', mid[jq], y);
    }
  }

  lemma OtherByteKept(bs: seq<Block>, mid: seq<Block>, k: nat, x: nat, p: nat, q: nat, jq: nat, jp: nat, need: nat)
    requires BlocksOk(bs) && BlocksOk(mid) && FreeListSpec.Malloc(bs, need, mid, q) && q != 0
    requires Owns(mid, jq, q) && Owns(mid, jp, p)
    requires PayloadOf(bs, k, x) && bs[k].addr + NODE_S != p
    ensures Payload(bs, x) && Payload(mid, x) && Payload(Freed(mid, jp), x)
    ensures !(q <= x < mid[jq].End())
  {
    MallocKeepsUsed(bs, need, mid, q, k);
    var l :| 0 <= l < |mid| && mid[l] == bs[k];
    PayloadIn(mid, mid[l], x);
    FreedKeepsUsed(mid, jp, l);
    PayloadIn(Freed(mid, jp), mid[l], x);
    var z := MallocOwns(bs, need, mid, q);
    if l == jq { assert Owns(bs, k, q); }
    if l < jq { assert ApartAt(mid, l, jq); } else if jq < l { assert ApartAt(mid, jq, l); }
  }

  lemma GrownRetags(m: Headers, m1: Headers, m': Headers, c: seq<Ref>, bs: seq<Block>, j: nat, b: Block)
    requires HeapOk(m, c, bs) && Fits(bs, j, j + 2, [b]) && SameTags(m, m1)
    requires b.kind == Used && bs[j].kind == Used
    requires Others(m1, m', {At(bs[j].addr), At(bs[j + 2].addr)})
    requires At(bs[j].addr) in m1 && At(bs[j].addr) in m' && At(bs[j + 2].addr) in m1 && At(bs[j + 2].addr) in m'
    requires SameTag(m1[At(bs[j].addr)].(size := b.size), m'[At(bs[j].addr)])
    requires SameTag(m1[At(bs[j + 2].addr)].(prevSize := b.size), m'[At(bs[j + 2].addr)])
    ensures Retagged(m, m', bs, j, j + 2, [b])
  {
    OthersApart(bs, j, j + 2, [b]);
    assert [b][0] == b;
    assert TagAt(m, bs, j) && TagAt(m, bs, j + 2);
  }

  /** The headers and the chain after a released block joined both free neighbours. */
  ghost predicate Joined2(m: Headers, c: seq<Ref>, m': Headers, c': seq<Ref>, bs: seq<Block>, j: nat) {
    && 0 < j < |bs| - 1 && MergeTo(bs, j) < |bs|
    && var i, k := MergeFrom(bs, j), MergeTo(bs, j);
       var whole, next := At(bs[i].addr), At(bs[k].addr);
       && bs[i].addr <= bs[k].addr
       && Elems(c') == Elems(c) - FreeRefs(bs[i..k]) && whole !in c'
       && Others(m, m', {At(bs[j].addr), whole, next}) && whole in m && whole in m' && next in m && next in m'
       && SameTag(m[whole].(size := bs[k].addr - bs[i].addr, inUse := false), m'[whole])
       && SameTag(m[next].(prevSize := bs[k].addr - bs[i].addr), m'[next])
  }

  /** What the headers say about the predecessor of a block in use. */
  lemma PrevFacts(m: Headers, c: seq<Ref>, bs: seq<Block>, j: nat)
    requires HeapOk(m, c, bs) && j < |bs| && bs[j].kind == Used
    ensures 0 < j < |bs| - 1 && MergeTo(bs, j) < |bs|
    ensures var i, k := MergeFrom(bs, j), MergeTo(bs, j);
            var node, prev, next := At(bs[j].addr), At(bs[j - 1].addr), At(bs[k].addr);
            && node in m && m[node].prevSize <= node.addr && prev == At(node.addr - m[node].prevSize)
            && prev in m && prev != node && prev != next && m[prev].inUse == (bs[j - 1].kind != Free)
            && (bs[j - 1].kind == Free ==>
                  && prev in c && prev !in FreeRefs(bs[j..k]) && m[prev].size == bs[j].addr - bs[j - 1].addr
                  && FreeRefs(bs[i..k]) == FreeRefs(bs[j..k]) + {prev})
            && {prev, next} <= HeaderRefs(bs)
  {
    var k := MergeTo(bs, j);
    MergedFits(bs, j);
    assert TagAt(m, bs, j) && TagAt(m, bs, j - 1) && JoinedAt(bs, j - 1);
    AddressesDiffer(bs, j, j - 1);
    AddressesDiffer(bs, j - 1, k);
    if bs[j - 1].kind == Free {
      FreeInChain(m, c, bs, j - 1);
      assert bs[j - 1..k] == [bs[j - 1]] + bs[j..k];
      FreeRefsAppend([bs[j - 1]], bs[j..k]);
      FreeRefsOne(bs[j - 1]);
      FreeRefsRow(bs, j, k);
      FreeRefsOne(bs[j]);
      FreeRefsOne(bs[j + 1]);
      AddressesDiffer(bs, j - 1, j + 1);
    }
  }

  lemma OwnerUnique(bs: seq<Block>, p: nat)
    requires BlocksOk(bs)
    ensures forall i: nat, j: nat :: Owns(bs, i, p) && Owns(bs, j, p) ==> i == j
  {
    forall i: nat, j: nat | Owns(bs, i, p) && Owns(bs, j, p)
      ensures i == j
    {
      if i != j { AddressesDiffer(bs, i, j); }
    }
  }

  lemma WholeReady(m: Headers, c: seq<Ref>, m': Headers, c': seq<Ref>, bs: seq<Block>, j: nat)
    requires HeapOk(m, c, bs) && j < |bs| && bs[j].kind == Used && Joined2(m, c, m', c', bs, j)
    ensures var i, k := MergeFrom(bs, j), MergeTo(bs, j);
            && 0 < m'[At(bs[i].addr)].size < WORD && At(bs[i].addr) in HeaderRefs(bs)
            && FreeRefs(Merged(bs, i, k)) == {At(bs[i].addr)}
  {
    var i, k := MergeFrom(bs, j), MergeTo(bs, j);
    MergedFits(bs, j);
    var b := Merged(bs, i, k)[0];
    assert BlockOk(b);
    TotalSplice(bs, i, k, [b]);
    SizeInTotal(Splice(bs, i, k, [b]), i);
    assert Splice(bs, i, k, [b])[i] == b;
    FreeRefsOne(b);
  }

  lemma ReleasedRetags(m: Headers, m1: Headers, m': Headers, c: seq<Ref>, bs: seq<Block>, j: nat)
    requires HeapOk(m, c, bs) && j < |bs| && bs[j].kind == Used
    requires exists c' :: Joined2(m, c, m1, c', bs, j)
    requires SameTags(m1, m')
    ensures 0 < j < |bs| - 1 && MergeTo(bs, j) < |bs|
    ensures var i, k := MergeFrom(bs, j), MergeTo(bs, j);
            bs[i].addr <= bs[k].addr && Retagged(m, m', bs, i, k, Merged(bs, i, k))
  {
    var i, k := MergeFrom(bs, j), MergeTo(bs, j);
    MergedFits(bs, j);
    OthersApart(bs, i, k, Merged(bs, i, k));
    assert TagAt(m, bs, i) && TagAt(m, bs, k);
    forall x | 0 <= x < |bs| && x != j
      ensures bs[x].addr != bs[j].addr
    {
      AddressesDiffer(bs, x, j);
    }
  }

  /** The headers and the chain after a released block joined a free successor. */
  ghost predicate NextJoined(m: Headers, c: seq<Ref>, m': Headers, c': seq<Ref>, bs: seq<Block>, j: nat) {
    && 0 < j < |bs| - 1 && MergeTo(bs, j) < |bs|
    && var k := MergeTo(bs, j);
       var node, next := At(bs[j].addr), At(bs[k].addr);
       && bs[j].addr <= bs[k].addr
       && Elems(c') == Elems(c) - FreeRefs(bs[j..k]) && node !in c'
       && Others(m, m', {node, next}) && node in m && node in m' && next in m && next in m'
       && SameTag(m[node].(size := bs[k].addr - bs[j].addr, inUse := false), m'[node])
       && SameTag(m[next].(prevSize := bs[k].addr - bs[j].addr), m'[next])
  }

  /** What the headers say about the successor of a block in use. */
  lemma NextFacts(m: Headers, c: seq<Ref>, bs: seq<Block>, j: nat)
    requires HeapOk(m, c, bs) && j < |bs| && bs[j].kind == Used
    ensures 0 < j < |bs| - 1 && MergeTo(bs, j) < |bs|
    ensures var k := MergeTo(bs, j);
            var node, next, subs := At(bs[j].addr), At(bs[j + 1].addr), At(bs[k].addr);
            && node in m && node !in c && m[node].inUse && m[node].size == bs[j].size
            && next == At(node.addr + m[node].size)
            && next in m && next != node && subs in m && subs != node
            && m[next].inUse == (bs[j + 1].kind != Free)
            && (bs[j + 1].kind != Free ==>
                  m[next].prevSize == m[node].size == bs[k].addr - bs[j].addr && FreeRefs(bs[j..k]) == {})
            && (bs[j + 1].kind == Free ==>
                  && next in c && subs == At(next.addr + m[next].size) && subs != next
                  && m[node].size + m[next].size == bs[k].addr - bs[j].addr && FreeRefs(bs[j..k]) == {next})
            && {node, next, subs} <= HeaderRefs(bs)
  {
    MergedFits(bs, j);
    assert TagAt(m, bs, j) && TagAt(m, bs, j + 1) && JoinedAt(bs, j);
    AddressesDiffer(bs, j, j + 1);
    FreeRefsRow(bs, j, MergeTo(bs, j));
    FreeRefsOne(bs[j]);
    UsedNotInChain(m, c, bs, j);
    if bs[j + 1].kind == Free {
      assert TagAt(m, bs, j + 2) && JoinedAt(bs, j + 1);
      AddressesDiffer(bs, j, j + 2);
      AddressesDiffer(bs, j + 1, j + 2);
      FreeRefsOne(bs[j + 1]);
      FreeInChain(m, c, bs, j + 1);
    }
  }

  /** Every node of the chain is smaller than a word. */
  lemma NodesAreWords(m: Headers, chain: seq<Ref>, bs: seq<Block>)
    requires HeapOk(m, chain, bs)
    ensures forall r <- chain :: r in m && m[r].size < WORD
  {
    forall r | r in chain ensures r in m && m[r].size < WORD {
      var k :| 0 <= k < |chain| && chain[k] == r;
      assert LinkAt(m, chain, k);
      if r.At? {
        var i := BlockOfNode(m, chain, bs, r);
        SizeInTotal(bs, i);
      }
    }
  }

  /** A sum in size_t arithmetic. */
  function Wrapped(n: nat): nat {
    if n < SIZE_T then n else n - SIZE_T
  }

  /** The size of the block for a request, in size_t arithmetic. */
  method Rounded(size: nat) returns (need: nat)
    requires size < SIZE_T
    ensures need == Wrapped(Need(size))
  {
    need := Wrapped(size + NODE_S);
    ghost var n := size + NODE_S;
    while need % 16 != 0
      invariant size + NODE_S <= n <= Need(size) && need == Wrapped(n)
      decreases Need(size) - n
    {
      assert n % 16 != 0;
      need, n := Wrapped(need + 1), n + 1;
    }
    assert n % 16 == 0;
  }

  /** The block computed for a request holds it exactly when the addition of the
      header does not wrap. */
  lemma RequestFits(size: nat)
    requires size < SIZE_T
    ensures size + NODE_S <= Wrapped(Need(size)) <==> Need(size) < SIZE_T
  {
  }

  /** The request that a size is served as. */
  function Served(size: nat): nat {
    if Need(size) <= SIZE_T + NODE_S then size else Need(size) - SIZE_T - NODE_S
  }

  /** The block computed for a request has room for more than a header. */
  predicate Servable(size: nat) {
    size < SIZE_T && (size == 0 || Wrapped(Need(size)) > NODE_S)
  }

  lemma ServedNeed(size: nat)
    requires Servable(size) && size > 0
    ensures Served(size) > 0 && Need(Served(size)) == Wrapped(Need(size))
  {
  }

  /** A request is served as itself exactly when the addition of the header does
      not wrap, and as one of 8 bytes otherwise. */
  lemma ServedAs(size: nat)
    requires Servable(size)
    ensures Served(size) == size <==> Need(size) < SIZE_T
    ensures Need(size) >= SIZE_T ==> Served(size) == 8 && size >= SIZE_T - 7
  {
  }

  /** What the outcome of a request means. */
  lemma MallocPromise(bs: seq<Block>, size: nat, bs': seq<Block>, p: nat)
    requires BlocksOk(bs) && Servable(size) && FreeListSpec.Malloc(bs, Served(size), bs', p)
    ensures Need(size) < SIZE_T ==> FreeListSpec.Malloc(bs, size, bs', p)
    ensures p == 0 ==> bs' == bs
    ensures p != 0 ==> Exchanged(bs, bs', 0, p) && Sized(bs', p, Need(Served(size)), Need(Served(size)) + NODE_S)
    ensures Need(size) >= SIZE_T && p != 0 ==> Sized(bs', p, 32, 56) && 56 < size
  {
    HugeNeed(size);
    if p == 0 {
      MallocFails(bs, Served(size), bs');
    } else {
      MallocExchanges(bs, Served(size), bs', p);
    }
  }

  lemma HugeNeed(size: nat)
    requires Servable(size)
    ensures Need(size) < SIZE_T ==> Served(size) == size
    ensures Need(size) >= SIZE_T ==> Need(Served(size)) == 32 && 56 < size
  {
    ServedAs(size);
  }

  lemma MallocFails(bs: seq<Block>, size: nat, bs': seq<Block>)
    requires FreeListSpec.Malloc(bs, size, bs', 0)
    ensures bs' == bs
  {
  }

  /** Carving keeps the blocks in order exactly when the block carved has room for
      more than a header, or takes the whole free block. */
  lemma CarveKeepsBlocks(bs: seq<Block>, i: nat, need: nat)
    requires BlocksOk(bs) && i < |bs| && bs[i].kind == Free && need <= bs[i].size && need % 16 == 0
    ensures BlocksOk(Splice(bs, i, i + 1, Carved(bs[i], need))) <==> need > NODE_S || bs[i].size <= need + NODE_S
  {
    var bs' := Splice(bs, i, i + 1, Carved(bs[i], need));
    if need > NODE_S {
      CarvedFits(bs, i, need);
      SpliceOk(bs, i, i + 1, Carved(bs[i], need));
    } else if bs[i].size <= need + NODE_S {
      WholeFits(bs, i);
    } else {
      assert bs'[i] == Carved(bs[i], need)[0];
      assert !BlockAt(bs', i);
    }
  }

  lemma WholeFits(bs: seq<Block>, i: nat)
    requires BlocksOk(bs) && i < |bs| && bs[i].kind == Free
    ensures BlocksOk(Splice(bs, i, i + 1, [bs[i].(kind := Used)]))
  {
    var parts := [bs[i].(kind := Used)];
    assert JoinedAt(bs, i) && JoinedAt(bs, i - 1) && BlockAt(bs, i);
    SpliceOk(bs, i, i + 1, parts);
  }

  /** Headers outside `rs` keep their tags. */
  ghost predicate Others(m: Headers, m': Headers, rs: set<Ref>) {
    forall r <- m :: r !in rs ==> r in m' && SameTag(m[r], m'[r])
  }

  lemma UsedNotInChain(m: Headers, chain: seq<Ref>, bs: seq<Block>, j: nat)
    requires HeapOk(m, chain, bs) && j < |bs| && bs[j].kind != Free
    ensures At(bs[j].addr) !in chain
  {
    if At(bs[j].addr) in chain {
      assert At(bs[j].addr) in Elems(chain);
      var k :| 0 <= k < |bs| && bs[k].kind == Free && At(bs[k].addr) == At(bs[j].addr);
      AddressesDiffer(bs, j, k);
    }
  }

  lemma NoNodeNoFit(m: Headers, chain: seq<Ref>, bs: seq<Block>, need: nat)
    requires HeapOk(m, chain, bs) && forall r <- chain :: r in m && m[r].size < need
    ensures NoFit(bs, need)
  {
    forall j | 0 <= j < |bs| && bs[j].kind == Free
      ensures bs[j].size < need
    {
      FreeInChain(m, chain, bs, j);
    }
  }

  lemma TakenIsMalloc(bs: seq<Block>, size: nat, i: nat)
    requires size > 0 && BestFit(bs, i, Need(size))
    ensures FreeListSpec.Malloc(bs, size, Splice(bs, i, i + 1, Carved(bs[i], Need(size))), bs[i].addr + NODE_S)
  {
  }

  lemma NodeIsBestFit(m: Headers, chain: seq<Ref>, bs: seq<Block>, i: nat, need: nat)
    requires HeapOk(m, chain, bs) && i < |bs| && bs[i].kind == Free && bs[i].size >= need
    requires forall r <- chain :: r in m && (m[r].size >= need ==> bs[i].size <= m[r].size)
    ensures BestFit(bs, i, need)
  {
    forall j | 0 <= j < |bs| && bs[j].kind == Free && bs[j].size >= need
      ensures bs[i].size <= bs[j].size
    {
      FreeInChain(m, chain, bs, j);
    }
  }

  /** What has to hold for a row of blocks, off the chain, to be split in two. */
  lemma SplitReady(m: Headers, m1: Headers, c: seq<Ref>, c1: seq<Ref>, bs: seq<Block>, i: nat, j: nat,
                   parts: seq<Block>)
    requires HeapOk(m, c, bs) && SameTags(m, m1) && Fits(bs, i, j, parts) && j <= i + 2
    requires |parts| == 2 && parts[0].kind == Used && parts[1].kind == Free
    requires Elems(c1) == Elems(c) - FreeRefs(bs[i..j])
    ensures var node, tail, subs := At(bs[i].addr), At(parts[1].addr), At(bs[j].addr);
            && node in m1 && subs in m1 && node !in c1 && tail !in c1 && node != subs && tail != node && tail != subs
            && m1[node].size == bs[i].size && 0 < parts[1].size < WORD
            && tail == At(bs[i].addr + parts[0].size)
    ensures FreeRefs(parts) == {At(parts[1].addr)}
  {
    assert TagAt(m, bs, i) && TagAt(m, bs, j);
    NewNotFree(bs, i, j, parts, 0);
    NewNotFree(bs, i, j, parts, 1);
    assert At(parts[0].addr) !in Elems(c1) && At(parts[1].addr) !in Elems(c1);
    OthersApart(bs, i, j, parts);
    assert BlockOk(parts[0]) && BlockOk(parts[1]);
    TotalSplice(bs, i, j, parts);
    SizeInTotal(Splice(bs, i, j, parts), i + 1);
    assert Splice(bs, i, j, parts)[i + 1] == parts[1];
    FreeRefsTwo(parts[0], parts[1]);
    FreeRefsOne(parts[0]);
    FreeRefsOne(parts[1]);
    assert parts == [parts[0], parts[1]];
  }

  lemma SameTagsTrans(m: Headers, m1: Headers, m2: Headers)
    requires SameTags(m, m1) && SameTags(m1, m2)
    ensures SameTags(m, m2)
  {
  }

  lemma SplitTags(m: Headers, m1: Headers, m2: Headers, node: Ref, need: nat, rest: nat, subs: Ref)
    requires node.At? && node in m && subs in m && node != subs && At(node.addr + need) !in {node, subs}
    requires m1 == m[subs := m[subs].(prevSize := rest)][node := m[node].(size := need)]
                    [At(node.addr + need) := Header(Null, Null, rest, need, false)]
    requires SameTags(m1, m2)
    ensures node in m2 && m2[node].inUse == m[node].inUse
    ensures SameTags(TwoParts(m, node, need, rest, subs), m2[node := m2[node].(inUse := true)])
  {
  }

  lemma TwoPartsSame(m: Headers, m1: Headers, node: Ref, need: nat, rest: nat, subs: Ref)
    requires SameTags(m, m1) && node.At? && node in m && subs in m
    ensures SameTags(TwoParts(m, node, need, rest, subs), TwoParts(m1, node, need, rest, subs))
  {
  }

  lemma SplitRetags(m: Headers, m1: Headers, m': Headers, bs: seq<Block>, i: nat, j: nat, parts: seq<Block>)
    requires BlocksOk(bs) && TagsOk(m, bs) && SameTags(m, m1) && Fits(bs, i, j, parts)
    requires |parts| == 2 && parts[0].kind == Used && parts[1].kind == Free
    requires At(bs[i].addr) in m1 && At(bs[j].addr) in m1
    requires SameTags(TwoParts(m1, At(bs[i].addr), parts[0].size, parts[1].size, At(bs[j].addr)), m')
    ensures Retagged(m, m', bs, i, j, parts)
  {
    var node, need, rest, subs := At(bs[i].addr), parts[0].size, parts[1].size, At(bs[j].addr);
    assert parts == [parts[0], parts[1]];
    TwoPartsSame(m, m1, node, need, rest, subs);
    SameTagsTrans(TwoParts(m, node, need, rest, subs), TwoParts(m1, node, need, rest, subs), m');
    TwoPartsRetag(m, m', bs, i, j, parts[0], parts[1]);
  }

  lemma WholeRetags(m: Headers, m1: Headers, m': Headers, bs: seq<Block>, i: nat, b: Block)
    requires BlocksOk(bs) && TagsOk(m, bs) && SameTags(m, m1) && Fits(bs, i, i + 1, [b])
    requires b == bs[i].(kind := Used) && At(b.addr) in m1
    requires m' == m1[At(b.addr) := m1[At(b.addr)].(inUse := true, next := Null, prev := Null)]
    ensures Retagged(m, m', bs, i, i + 1, [b])
  {
    assert TagAt(m, bs, i) && TagAt(m, bs, i + 1) && JoinedAt(bs, i) && InnerAt(bs, i);
    AddressesDiffer(bs, i, i + 1);
    OnePartRetags(m, m', bs, i, i + 1, b);
  }

  /** Every node up to a head is smaller than the sizes of its bucket. */
  lemma SmallerBefore(m: Headers, chain: seq<Ref>, k: nat, need: nat)
    requires ChainOk(m, chain) && k < |chain| && chain[k].Head? && 0 < need && Low(chain[k].i) <= need
    ensures forall x :: 0 <= x <= k ==> chain[x] in m && m[chain[x]].size < need
  {
    forall x | 0 <= x <= k
      ensures chain[x] in m && m[chain[x]].size < need
    {
      OrderedAt(m, chain, x, k);
      assert chain[x] in chain;
    }
  }

  /** The first node that is large enough is a smallest one. */
  lemma LargerAfter(m: Headers, chain: seq<Ref>, k: nat, need: nat)
    requires ChainOk(m, chain) && k < |chain| && chain[k] in m && m[chain[k]].size >= need > 0
    requires forall x :: 0 <= x < k ==> chain[x] in m && m[chain[x]].size < need
    ensures forall r <- chain :: m[r].size >= need ==> m[chain[k]].size <= m[r].size
    ensures chain[k].At?
  {
    assert chain[k] in chain;
    forall r <- chain | m[r].size >= need
      ensures m[chain[k]].size <= m[r].size
    {
      var y :| 0 <= y < |chain| && chain[y] == r;
      OrderedAt(m, chain, k, y);
    }
  }

  /** A head that comes later in the chain belongs to a bucket of larger sizes. */
  lemma NextBucketFollows(m: Headers, chain: seq<Ref>, i: nat, k0: nat, k: nat, size: nat)
    requires ChainOk(m, chain) && k0 < k < |chain| && chain[k0] == Head(i) && size < Low(i + 1)
    requires chain[k] in m && m[chain[k]].size == 0
    ensures 2 * size + 1 <= Rank(m, chain[k])
  {
    OrderedAt(m, chain, k0, k);
    assert chain[k] in chain;
    DistinctIndex(chain, k0, k);
    var j := chain[k].i;
    if j < i { LowGrows(j, i); }
    if i + 1 < j { LowGrows(i + 1, j); }
  }
}
