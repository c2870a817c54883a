/** What holds after any sequence of allocator calls. */
module FreeListRuns {
  import opened FreeListChain
  import opened FreeListBlocks
  import opened FreeListHeap
  import opened FreeListSpec
  import opened FreeListCount
  import opened FreeListAccount

  // -------------------------------------------------------------- conservation

  /** The bytes of blocks in use. */
  function UsedTotal(bs: seq<Block>): nat {
    if bs == [] then 0
    else
      var b := bs[|bs| - 1];
      UsedTotal(bs[..|bs| - 1]) + if b.kind == Used then b.size else 0
  }

  lemma {:induction false} SumsAppend(a: seq<Block>, b: seq<Block>)
    ensures FreeTotal(a + b) == FreeTotal(a) + FreeTotal(b)
    ensures UsedTotal(a + b) == UsedTotal(a) + UsedTotal(b)
  {
    if b == [] {
      assert a + b == a;
    } else {
      var n := |b| - 1;
      SumsAppend(a, b[..n]);
      assert (a + b)[..|a| + n] == a + b[..n];
    }
  }

  lemma {:induction false} InnerSums(bs: seq<Block>)
    requires forall k :: 0 <= k < |bs| ==> InnerAt(bs, k)
    ensures FreeTotal(bs) + UsedTotal(bs) == Total(bs)
  {
    if bs != [] {
      var n := |bs| - 1;
      forall k | 0 <= k < n
        ensures InnerAt(bs[..n], k)
      {
        assert InnerAt(bs, k);
      }
      assert InnerAt(bs, n);
      InnerSums(bs[..n]);
    }
  }

  lemma SumsOfThree(a: seq<Block>, b: seq<Block>, c: seq<Block>)
    ensures FreeTotal(a + b + c) == FreeTotal(a) + FreeTotal(b) + FreeTotal(c)
    ensures UsedTotal(a + b + c) == UsedTotal(a) + UsedTotal(b) + UsedTotal(c)
  {
    SumsAppend(a + b, c);
    SumsAppend(a, b);
  }

  lemma SpliceSums(bs: seq<Block>, i: nat, j: nat, parts: seq<Block>)
    requires BlocksOk(bs) && Fits(bs, i, j, parts)
    ensures var bs' := Splice(bs, i, j, parts);
            FreeTotal(bs') + UsedTotal(bs') == FreeTotal(bs) + UsedTotal(bs)
  {
    SumsOfThree(bs[..i], parts, bs[j..]);
    SumsOfThree(bs[..i], bs[i..j], bs[j..]);
    assert bs == bs[..i] + bs[i..j] + bs[j..];
    TotalRow(bs, i, j);
    TotalNew(parts);
    RowSums(bs, i, j);
    PartSums(bs, i, j, parts);
  }

  lemma RowSums(bs: seq<Block>, i: nat, j: nat)
    requires i <= j <= |bs| && forall k :: i <= k < j ==> InnerAt(bs, k)
    ensures FreeTotal(bs[i..j]) + UsedTotal(bs[i..j]) == Total(bs[i..j])
  {
    forall k | 0 <= k < j - i
      ensures InnerAt(bs[i..j], k)
    {
      assert InnerAt(bs, i + k);
    }
    InnerSums(bs[i..j]);
  }

  lemma PartSums(bs: seq<Block>, i: nat, j: nat, parts: seq<Block>)
    requires Fits(bs, i, j, parts)
    ensures FreeTotal(parts) + UsedTotal(parts) == Total(parts)
  {
    assert forall k :: 0 <= k < |parts| ==> InnerAt(parts, k);
    InnerSums(parts);
  }

  // ----------------------------------------------------------------- alignment

  ghost predicate AlignedAt(bs: seq<Block>, k: nat)
    requires k < |bs|
  {
    bs[k].Inner() ==> (bs[k].addr + NODE_S) % 16 == 0
  }

  /** Every payload starts on a 16-byte boundary. */
  ghost predicate Aligned(bs: seq<Block>) {
    forall k :: 0 <= k < |bs| ==> AlignedAt(bs, k)
  }

  lemma SpliceAligned(bs: seq<Block>, i: nat, j: nat, parts: seq<Block>)
    requires Aligned(bs) && i <= j <= |bs| && Aligned(parts)
    ensures Aligned(Splice(bs, i, j, parts))
  {
    var bs' := Splice(bs, i, j, parts);
    forall k | 0 <= k < |bs'|
      ensures AlignedAt(bs', k)
    {
      SpliceOutside(bs, i, j, parts, k);
      if i <= k < i + |parts| {
        assert AlignedAt(parts, k - i);
      } else {
        assert AlignedAt(bs, Source(i, j, |parts|, k));
      }
    }
  }

  // --------------------------------------------------------------------- steps

  /** One row of blocks was retiled, on 16-byte boundaries if they were so before. */
  ghost predicate RetiledAt(bs: seq<Block>, bs': seq<Block>, i: nat, j: nat, parts: seq<Block>) {
    Fits(bs, i, j, parts) && bs' == Splice(bs, i, j, parts) && (AlignedAt(bs, i) ==> Aligned(parts))
  }

  ghost predicate Retiled(bs: seq<Block>, bs': seq<Block>) {
    bs' == bs || exists i: nat, j: nat, parts :: RetiledAt(bs, bs', i, j, parts)
  }

  lemma MallocRetiles(bs: seq<Block>, size: nat, bs': seq<Block>, p: nat)
    requires BlocksOk(bs) && Malloc(bs, size, bs', p)
    ensures Retiled(bs, bs')
  {
    if bs' != bs {
      var need := Need(size);
      var i: nat :| BestFit(bs, i, need) && p == bs[i].addr + NODE_S
                    && bs' == Splice(bs, i, i + 1, Carved(bs[i], need));
      CarvedRetiles(bs, i, need);
    }
  }

  lemma CarvedRetiles(bs: seq<Block>, i: nat, need: nat)
    requires BlocksOk(bs) && BestFit(bs, i, need) && need > NODE_S && need % 16 == 0
    ensures Retiled(bs, Splice(bs, i, i + 1, Carved(bs[i], need)))
  {
    CarvedFits(bs, i, need);
    assert RetiledAt(bs, Splice(bs, i, i + 1, Carved(bs[i], need)), i, i + 1, Carved(bs[i], need));
  }

  lemma FreedRetiles(bs: seq<Block>, j: nat)
    requires BlocksOk(bs) && j < |bs| && bs[j].kind == Used
    ensures Retiled(bs, Freed(bs, j))
  {
    MergedFits(bs, j);
    var i, k := MergeFrom(bs, j), MergeTo(bs, j);
    assert RetiledAt(bs, Freed(bs, j), i, k, Merged(bs, i, k));
  }

  lemma ResizedRetiles(bs: seq<Block>, j: nat, need: nat)
    requires BlocksOk(bs) && j < |bs| && bs[j].kind == Used && need > NODE_S && need % 16 == 0
    requires j + 1 < |bs| && Resized(bs, j, need).InPlace? && j + Resized(bs, j, need).taken <= |bs|
    ensures var r := Resized(bs, j, need); Retiled(bs, Splice(bs, j, j + r.taken, r.parts))
  {
    ResizedFits(bs, j, need);
    var r := Resized(bs, j, need);
    assert RetiledAt(bs, Splice(bs, j, j + r.taken, r.parts), j, j + r.taken, r.parts);
  }

  /** What every state of a run shares with the first one. */
  ghost predicate Conserves(bs: seq<Block>, bs': seq<Block>) {
    && BlocksOk(bs')
    && FreeTotal(bs') + UsedTotal(bs') == FreeTotal(bs) + UsedTotal(bs)
    && (Aligned(bs) ==> Aligned(bs'))
  }

  lemma RetiledConserves(bs: seq<Block>, bs': seq<Block>)
    requires BlocksOk(bs) && Retiled(bs, bs')
    ensures Conserves(bs, bs')
  {
    if bs' != bs {
      var i: nat, j: nat, parts :| RetiledAt(bs, bs', i, j, parts);
      SpliceOk(bs, i, j, parts);
      SpliceSums(bs, i, j, parts);
      if Aligned(bs) {
        assert AlignedAt(bs, i);
        SpliceAligned(bs, i, j, parts);
      }
    }
  }

  datatype Op = OpMalloc(size: nat) | OpFree(p: nat) | OpRealloc(p: nat, size: nat)

  /** One call, and the pointer it returned (0 for a call that returns none). */
  ghost predicate Step(bs: seq<Block>, op: Op, bs': seq<Block>, q: nat)
    requires BlocksOk(bs)
  {
    match op
    case OpMalloc(size) => Malloc(bs, size, bs', q)
    case OpFree(p) => q == 0 && if p == 0 then bs' == bs else exists j: nat :: Owns(bs, j, p) && bs' == Freed(bs, j)
    case OpRealloc(p, size) => Realloc(bs, p, size, bs', q)
  }

  lemma StepConserves(bs: seq<Block>, op: Op, bs': seq<Block>, q: nat)
    requires BlocksOk(bs) && Step(bs, op, bs', q)
    ensures Conserves(bs, bs')
  {
    match op
    case OpMalloc(size) =>
      MallocRetiles(bs, size, bs', q);
      RetiledConserves(bs, bs');
    case OpFree(p) =>
      if p != 0 {
        var j: nat :| Owns(bs, j, p) && bs' == Freed(bs, j);
        FreedRetiles(bs, j);
      }
      RetiledConserves(bs, bs');
    case OpRealloc(p, size) =>
      ReallocConserves(bs, p, size, bs', q);
  }

  lemma ReallocConserves(bs: seq<Block>, p: nat, size: nat, bs': seq<Block>, q: nat)
    requires BlocksOk(bs) && Realloc(bs, p, size, bs', q)
    ensures Conserves(bs, bs')
  {
    if p == 0 {
      MallocRetiles(bs, size, bs', q);
      RetiledConserves(bs, bs');
    } else {
      var j: nat :| Owns(bs, j, p) && ReallocOf(bs, j, p, size, bs', q);
      if size == 0 {
        FreedRetiles(bs, j);
        RetiledConserves(bs, bs');
      } else if Resized(bs, j, Need(size)).InPlace? {
        ResizedRetiles(bs, j, Need(size));
        RetiledConserves(bs, bs');
      } else {
        MovedConserves(bs, p, Need(size), bs', q);
      }
    }
  }

  lemma MovedConserves(bs: seq<Block>, p: nat, need: nat, bs': seq<Block>, q: nat)
    requires BlocksOk(bs) && Moved(bs, p, need, bs', q)
    ensures Conserves(bs, bs')
  {
    var mid :| BlocksOk(mid) && Malloc(bs, need, mid, q) &&
      if q == 0 then bs' == bs else exists j: nat :: Owns(mid, j, p) && bs' == Freed(mid, j);
    if q != 0 {
      MallocRetiles(bs, need, mid, q);
      RetiledConserves(bs, mid);
      var j: nat :| Owns(mid, j, p) && bs' == Freed(mid, j);
      FreedRetiles(mid, j);
      RetiledConserves(mid, bs');
    }
  }

  // ---------------------------------------------------------------------- runs

  ghost predicate IsRun(run: seq<seq<Block>>, ops: seq<Op>, replies: seq<nat>) {
    && |run| == |ops| + 1 && |replies| == |ops|
    && BlocksOk(run[0])
    && forall i :: 0 <= i < |ops| ==> StepAt(run, ops, replies, i)
  }

  ghost predicate StepAt(run: seq<seq<Block>>, ops: seq<Op>, replies: seq<nat>, i: nat)
    requires |run| == |ops| + 1 && |replies| == |ops| && i < |ops|
  {
    BlocksOk(run[i]) ==> Step(run[i], ops[i], run[i + 1], replies[i])
  }

  /** After any sequence of malloc, free and realloc the blocks tile their
      regions, no two neighbours are free, free and used bytes add up to what
      they were, and payloads stay on 16-byte boundaries. */
  lemma {:induction false} RunConserves(run: seq<seq<Block>>, ops: seq<Op>, replies: seq<nat>, n: nat)
    requires IsRun(run, ops, replies) && n < |run|
    ensures Conserves(run[0], run[n])
  {
    if n > 0 {
      RunConserves(run, ops, replies, n - 1);
      assert StepAt(run, ops, replies, n - 1);
      StepConserves(run[n - 1], ops[n - 1], run[n], replies[n - 1]);
    }
  }

  /** What a call returns is the payload of a block in use. */
  lemma ReplyIsLive(bs: seq<Block>, op: Op, bs': seq<Block>, q: nat)
    requires BlocksOk(bs) && Step(bs, op, bs', q) && q != 0
    ensures Live(bs', q)
  {
    match op
    case OpMalloc(size) =>
      var j := MallocOwns(bs, size, bs', q);
    case OpRealloc(p, size) =>
      if p == 0 {
        var j := MallocOwns(bs, size, bs', q);
      } else {
        var j: nat :| Owns(bs, j, p) && ReallocOf(bs, j, p, size, bs', q);
        ReallocIsLive(bs, j, p, size, bs', q);
      }
  }

  lemma ReallocIsLive(bs: seq<Block>, j: nat, p: nat, size: nat, bs': seq<Block>, q: nat)
    requires BlocksOk(bs) && Owns(bs, j, p) && p != 0 && ReallocOf(bs, j, p, size, bs', q) && q != 0
    ensures Live(bs', q)
  {
    if Resized(bs, j, Need(size)).InPlace? {
      assert bs'[j] == Resized(bs, j, Need(size)).parts[0];
      assert Owns(bs', j, q);
    } else {
      MovedIsLive(bs, p, Need(size), bs', q);
    }
  }

  lemma MovedIsLive(bs: seq<Block>, p: nat, need: nat, bs': seq<Block>, q: nat)
    requires BlocksOk(bs) && Live(bs, p) && Moved(bs, p, need, bs', q) && q != 0
    ensures Live(bs', q)
  {
    var mid :| BlocksOk(mid) && Malloc(bs, need, mid, q) &&
      if q == 0 then bs' == bs else exists j: nat :: Owns(mid, j, p) && bs' == Freed(mid, j);
    var jq := MallocOwns(bs, need, mid, q);
    assert p != q;
    var j: nat :| Owns(mid, j, p) && bs' == Freed(mid, j);
    StillLive(mid, j, jq, q);
  }

  lemma StillLive(bs: seq<Block>, j: nat, k: nat, q: nat)
    requires BlocksOk(bs) && j < |bs| && bs[j].kind == Used && Owns(bs, k, q) && j != k
    ensures Live(Freed(bs, j), q)
  {
    FreedKeepsUsed(bs, j, k);
    var bs' := Freed(bs, j);
    var l :| 0 <= l < |bs'| && bs'[l] == bs[k];
    assert Owns(bs', l, q);
  }

  lemma LiveAligned(bs: seq<Block>, q: nat)
    requires Aligned(bs) && Live(bs, q)
    ensures q % 16 == 0
  {
    var j: nat :| Owns(bs, j, q);
    assert AlignedAt(bs, j);
  }

  /** A call that returns a pointer from aligned blocks returns an aligned one. */
  lemma StepAligned(bs: seq<Block>, op: Op, bs': seq<Block>, q: nat)
    requires BlocksOk(bs) && Aligned(bs) && Step(bs, op, bs', q)
    ensures q % 16 == 0 && (q != 0 ==> Live(bs', q))
  {
    StepConserves(bs, op, bs', q);
    if q != 0 {
      ReplyIsLive(bs, op, bs', q);
      LiveAligned(bs', q);
    }
  }

  /** A region with an aligned base starts with aligned blocks. */
  lemma RegionAligned(base: nat, size: nat)
    requires base % 16 == 0 && size > 3 * NODE_S
    ensures Aligned(Region(base, size))
  {
    var bs := Region(base, size);
    forall k | 0 <= k < |bs| ensures AlignedAt(bs, k) {
      assert bs[k].Inner() ==> bs[k].addr == base + NODE_S;
    }
  }

  /** In every run from aligned regions, every pointer returned is 16-byte
      aligned and the payload of a block in use. */
  lemma ReplyAligned(run: seq<seq<Block>>, ops: seq<Op>, replies: seq<nat>, n: nat)
    requires IsRun(run, ops, replies) && n < |ops| && Aligned(run[0])
    ensures replies[n] % 16 == 0
    ensures replies[n] != 0 ==> Live(run[n + 1], replies[n])
  {
    RunConserves(run, ops, replies, n);
    assert StepAt(run, ops, replies, n);
    StepAligned(run[n], ops[n], run[n + 1], replies[n]);
  }

  /** In every state of every run, the blocks of two pointers in use, headers and
      payloads, do not overlap. */
  lemma LivePayloadsApart(run: seq<seq<Block>>, ops: seq<Op>, replies: seq<nat>, n: nat, i: nat, j: nat, p: nat, q: nat)
    requires IsRun(run, ops, replies) && n < |run| && Owns(run[n], i, p) && Owns(run[n], j, q) && p != q
    ensures run[n][i].End() <= run[n][j].addr || run[n][j].End() <= run[n][i].addr
  {
    RunConserves(run, ops, replies, n);
    if i < j { assert ApartAt(run[n], i, j); } else { assert ApartAt(run[n], j, i); }
  }

  // --------------------------------------------------------- every call accounted

  /** The pointer that a call gives up: none if it fails. */
  function GivenUp(op: Op, q: nat): nat {
    match op
    case OpMalloc(_) => 0
    case OpFree(p) => p
    case OpRealloc(p, size) => if q == 0 && size != 0 then 0 else p
  }

  /** The size of block that a call asks for at least. */
  function AskedFor(op: Op): nat {
    match op
    case OpMalloc(size) => Need(size)
    case OpFree(_) => 0
    case OpRealloc(_, size) => Need(size)
  }

  /** Each call exchanges the pointer it gives up for the one it returns, and the
      block of that one is as long as asked for. */
  lemma StepExchanges(bs: seq<Block>, op: Op, bs': seq<Block>, q: nat)
    requires BlocksOk(bs) && Step(bs, op, bs', q)
    ensures Exchanged(bs, bs', GivenUp(op, q), q)
    ensures q != 0 ==> Sized(bs', q, AskedFor(op), Need(AskedFor(op)) + NODE_S)
  {
    StepConserves(bs, op, bs', q);
    match op
    case OpMalloc(size) => MallocStep(bs, size, bs', q);
    case OpFree(p) =>
      if p == 0 {
        NothingExchanged(bs);
      } else {
        var j: nat :| Owns(bs, j, p) && bs' == Freed(bs, j);
        FreedExchanges(bs, j, p);
      }
    case OpRealloc(p, size) => ReallocStep(bs, p, size, bs', q);
  }

  lemma MallocStep(bs: seq<Block>, size: nat, bs': seq<Block>, q: nat)
    requires BlocksOk(bs) && Malloc(bs, size, bs', q)
    ensures Exchanged(bs, bs', 0, q) && (q != 0 ==> Sized(bs', q, Need(size), Need(Need(size)) + NODE_S))
  {
    if q == 0 {
      NothingExchanged(bs);
      MallocNull(bs, size, bs');
    } else {
      MallocExchanges(bs, size, bs', q);
      SizedWider(bs', q, Need(size), Need(size) + NODE_S, Need(size), Need(Need(size)) + NODE_S);
    }
  }

  lemma MallocNull(bs: seq<Block>, size: nat, bs': seq<Block>)
    requires Malloc(bs, size, bs', 0)
    ensures bs' == bs
  {
  }

  lemma ReallocStep(bs: seq<Block>, p: nat, size: nat, bs': seq<Block>, q: nat)
    requires BlocksOk(bs) && BlocksOk(bs') && Realloc(bs, p, size, bs', q)
    ensures Exchanged(bs, bs', GivenUp(OpRealloc(p, size), q), q)
    ensures q != 0 ==> Sized(bs', q, Need(size), Need(Need(size)) + NODE_S)
  {
    if p == 0 {
      MallocStep(bs, size, bs', q);
    } else {
      var j: nat :| Owns(bs, j, p) && ReallocOf(bs, j, p, size, bs', q);
      if size == 0 {
        FreedExchanges(bs, j, p);
      } else {
        ReallocRegrows(bs, j, p, size, bs', q);
        NothingExchanged(bs);
      }
    }
  }

  /** The pointers returned by the first `n` calls and not given up since. */
  function Outstanding(ops: seq<Op>, replies: seq<nat>, n: nat): set<nat>
    requires n <= |ops| == |replies|
  {
    if n == 0 then {}
    else
      var q := replies[n - 1];
      Outstanding(ops, replies, n - 1) - {GivenUp(ops[n - 1], q)} + if q == 0 then {} else {q}
  }

  /** In every run that starts with no block in use, the pointers in use are
      exactly those returned and not given up since. */
  lemma {:induction false} LiveExactly(run: seq<seq<Block>>, ops: seq<Op>, replies: seq<nat>, n: nat, r: nat)
    requires IsRun(run, ops, replies) && n < |run| && (forall b <- run[0] :: b.kind != Used)
    ensures Live(run[n], r) <==> r in Outstanding(ops, replies, n)
  {
    if n > 0 {
      LiveExactly(run, ops, replies, n - 1, r);
      RunConserves(run, ops, replies, n - 1);
      assert StepAt(run, ops, replies, n - 1);
      var p, q := GivenUp(ops[n - 1], replies[n - 1]), replies[n - 1];
      StepExchanges(run[n - 1], ops[n - 1], run[n], q);
      NoPtrNull(run[n]);
      if r != p && r != q { LiveKept(run[n - 1], run[n], p, q, r); }
    }
  }

  ghost predicate SomeHolds(bs: seq<Block>, x: nat) { exists r: nat :: HeldAt(bs, r, x) }

  /** And in every such state what is free and what those pointers hold is all
      that was free at first. */
  lemma {:induction false} FreeExactlyRest(run: seq<seq<Block>>, ops: seq<Op>, replies: seq<nat>, n: nat, x: nat)
    requires IsRun(run, ops, replies) && n < |run| && (forall b <- run[0] :: b.kind != Used)
    ensures FreeAt(run[0], x) <==> FreeAt(run[n], x) || SomeHolds(run[n], x)
    ensures FreeAt(run[n], x) ==> forall r: nat :: !HeldAt(run[n], r, x)
  {
    if n > 0 {
      FreeExactlyRest(run, ops, replies, n - 1, x);
      RunConserves(run, ops, replies, n - 1);
      RunConserves(run, ops, replies, n);
      assert StepAt(run, ops, replies, n - 1);
      StepExchanges(run[n - 1], ops[n - 1], run[n], replies[n - 1]);
      RestStep(run[n - 1], run[n], GivenUp(ops[n - 1], replies[n - 1]), replies[n - 1], x);
    }
  }

  lemma RestStep(bs: seq<Block>, bs': seq<Block>, p: nat, q: nat, x: nat)
    requires BlocksOk(bs) && BlocksOk(bs') && Exchanged(bs, bs', p, q)
    requires FreeAt(bs, x) ==> forall r: nat :: !HeldAt(bs, r, x)
    ensures FreeAt(bs', x) || SomeHolds(bs', x) <==> FreeAt(bs, x) || SomeHolds(bs, x)
    ensures FreeAt(bs', x) ==> forall r: nat :: !HeldAt(bs', r, x)
  {
    assert FreeThere(bs, bs', p, q, x);
    forall r: nat | r != p && r != q ensures HeldAt(bs', r, x) <==> HeldAt(bs, r, x) {
      HeldKept(bs, bs', p, q, r, x);
    }
    forall r: nat | r != p ensures !(HeldAt(bs, p, x) && HeldAt(bs, r, x)) { HeldApart(bs, p, r, x); }
    if p != q {
      LiveHas(bs', p);
      LiveHas(bs, q);
    }
  }
}
