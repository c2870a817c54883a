/** What a call does to the memory, byte by byte and pointer by pointer: the
    memory of the pointer given up becomes free, and that of the pointer handed
    out is taken from what is free then. */
module FreeListAccount {
  import opened FreeListChain
  import opened FreeListBlocks
  import opened FreeListHeap
  import opened FreeListCount
  import opened FreeListSpec

  predicate Covers(b: Block, x: nat) { b.addr <= x < b.End() }

  ghost predicate Covered(bs: seq<Block>, x: nat) { exists b <- bs :: Covers(b, x) }

  /** Address `x` lies in a free block. */
  ghost predicate FreeAt(bs: seq<Block>, x: nat) { exists b <- bs :: b.kind == Free && Covers(b, x) }

  predicate HasPtr(b: Block, p: nat) { b.kind == Used && p == b.addr + NODE_S }

  /** Address `x` lies in the block of the pointer `p`, its header included. */
  ghost predicate HeldAt(bs: seq<Block>, p: nat, x: nat) { exists b <- bs :: HasPtr(b, p) && Covers(b, x) }

  /** The length of the block of `p`, 0 if there is none. */
  function LengthOf(bs: seq<Block>, p: nat): nat {
    if bs == [] then 0
    else
      var b := bs[|bs| - 1];
      LengthOf(bs[..|bs| - 1], p) + if HasPtr(b, p) then b.size else 0
  }

  /** What was free or the block of `p` is free or the block of `q` now. */
  ghost predicate FreeExactly(bs: seq<Block>, bs': seq<Block>, p: nat, q: nat) {
    forall x: nat :: FreeThere(bs, bs', p, q, x)
  }

  ghost predicate FreeThere(bs: seq<Block>, bs': seq<Block>, p: nat, q: nat, x: nat) {
    && (FreeAt(bs', x) <==> (FreeAt(bs, x) || HeldAt(bs, p, x)) && !HeldAt(bs', q, x))
    && (HeldAt(bs', q, x) ==> FreeAt(bs, x) || HeldAt(bs, p, x))
  }

  /** All other pointers keep their blocks. */
  ghost predicate OthersKept(bs: seq<Block>, bs': seq<Block>, p: nat, q: nat) {
    forall b: Block | b.kind == Used && !HasPtr(b, p) && !HasPtr(b, q) :: b in bs' <==> b in bs
  }

  /** The pointer `p` is given up and `q` handed out, or the same one kept; 0
      stands for none. */
  ghost predicate Exchanged(bs: seq<Block>, bs': seq<Block>, p: nat, q: nat) {
    && FreeExactly(bs, bs', p, q) && OthersKept(bs, bs', p, q)
    && FreeTotal(bs') + LengthOf(bs', q) == FreeTotal(bs) + LengthOf(bs, p)
    && (q != 0 ==> Live(bs', q)) && (p != q ==> !Live(bs', p) && !Live(bs, q))
  }

  // ------------------------------------------------------------------- lengths

  lemma {:induction false} LengthAppend(a: seq<Block>, b: seq<Block>, p: nat)
    ensures LengthOf(a + b, p) == LengthOf(a, p) + LengthOf(b, p)
    ensures FreeTotal(a + b) == FreeTotal(a) + FreeTotal(b)
  {
    if b == [] {
      assert a + b == a;
    } else {
      var n := |b| - 1;
      LengthAppend(a, b[..n], p);
      assert (a + b)[..|a| + n] == a + b[..n];
    }
  }

  lemma {:induction false} NoLength(bs: seq<Block>, p: nat)
    requires forall b <- bs :: !HasPtr(b, p)
    ensures LengthOf(bs, p) == 0
  {
    if bs != [] {
      assert bs[|bs| - 1] in bs;
      NoLength(bs[..|bs| - 1], p);
    }
  }

  /** Every block is free or the one of `p`. */
  ghost predicate FreeOr(bs: seq<Block>, p: nat) { forall b <- bs :: b.kind == Free || HasPtr(b, p) }

  lemma {:induction false} FreeOrTotal(bs: seq<Block>, p: nat)
    requires FreeOr(bs, p)
    ensures FreeTotal(bs) + LengthOf(bs, p) == Total(bs)
  {
    if bs != [] {
      assert bs[|bs| - 1] in bs;
      FreeOrTotal(bs[..|bs| - 1], p);
    }
  }

  /** The length of an owner's block. */
  lemma LengthOfOwner(bs: seq<Block>, j: nat, p: nat)
    requires BlocksOk(bs) && Owns(bs, j, p)
    ensures LengthOf(bs, p) == bs[j].size
  {
    assert bs == bs[..j] + [bs[j]] + bs[j + 1..];
    LengthAppend(bs[..j] + [bs[j]], bs[j + 1..], p);
    LengthAppend(bs[..j], [bs[j]], p);
    forall b | b in bs[..j] ensures !HasPtr(b, p) {
      var k :| 0 <= k < j && bs[k] == b;
      AddressesDiffer(bs, k, j);
    }
    forall b | b in bs[j + 1..] ensures !HasPtr(b, p) {
      var k :| j < k < |bs| && bs[k] == b;
      AddressesDiffer(bs, k, j);
    }
    NoLength(bs[..j], p);
    NoLength(bs[j + 1..], p);
    assert [bs[j]][..0] == [] && LengthOf([], p) == 0;
  }

  lemma NoPtrNull(bs: seq<Block>)
    ensures LengthOf(bs, 0) == 0 && !Live(bs, 0)
  {
    NoLength(bs, 0);
  }

  lemma NothingExchanged(bs: seq<Block>)
    ensures Exchanged(bs, bs, 0, 0)
  {
    NoPtrNull(bs);
    assert forall x: nat :: FreeThere(bs, bs, 0, 0, x);
  }

  // -------------------------------------------------------------- one row

  lemma CoveredMore(bs: seq<Block>, b: Block, x: nat)
    ensures Covered(bs + [b], x) <==> Covered(bs, x) || Covers(b, x)
    ensures !Covered([], x)
  {
    if Covered(bs, x) {
      var c :| c in bs && Covers(c, x);
      assert c in bs + [b];
    }
    if Covers(b, x) { assert b in bs + [b]; }
  }

  /** A row of touching blocks covers all from its start to its end. */
  lemma {:induction false} RowCovers(bs: seq<Block>, i: nat, j: nat, x: nat)
    requires BlocksOk(bs) && i < j < |bs| && forall k :: i <= k < j ==> InnerAt(bs, k)
    ensures Covered(bs[i..j], x) <==> bs[i].addr <= x < bs[j].addr
    ensures bs[i].addr < bs[j].addr
  {
    assert JoinedAt(bs, j - 1) && InnerAt(bs, j - 1) && BlockAt(bs, j - 1);
    var last := bs[j - 1];
    assert bs[i..j] == bs[i..j - 1] + [last];
    CoveredMore(bs[i..j - 1], last, x);
    if i + 1 == j {
      assert bs[i..j - 1] == [];
    } else {
      RowCovers(bs, i, j - 1, x);
    }
  }

  lemma PartsCover(parts: seq<Block>, x: nat)
    requires |parts| == 1 || (|parts| == 2 && parts[0].Inner() && Joined(parts[0], parts[1]))
    ensures Covered(parts, x) <==> parts[0].addr <= x < parts[|parts| - 1].End()
  {
    CoveredMore([], parts[0], x);
    assert [] + [parts[0]] == [parts[0]];
    if |parts| == 2 {
      CoveredMore([parts[0]], parts[1], x);
      assert parts == [parts[0]] + [parts[1]];
    } else {
      assert parts == [parts[0]];
    }
  }

  /** The blocks outside a row. */
  function Outside(bs: seq<Block>, i: nat, j: nat): seq<Block>
    requires i <= j <= |bs|
  {
    bs[..i] + bs[j..]
  }

  lemma OutsideApart(bs: seq<Block>, i: nat, j: nat, b: Block)
    requires BlocksOk(bs) && i < j < |bs| && (forall k :: i <= k < j ==> InnerAt(bs, k)) && b in Outside(bs, i, j)
    ensures b.size > 0 && (b.End() <= bs[i].addr || bs[j].addr <= b.addr)
    ensures forall k | i <= k < j :: b.addr != bs[k].addr
  {
    var y :| 0 <= y < |bs| && !(i <= y < j) && bs[y] == b;
    assert BlockAt(bs, y);
    forall k | i <= k < j ensures InnerAt(bs, k) && Disjoint(bs[k], b) && b.addr != bs[k].addr {
      AddressesDiffer(bs, k, y);
      if y < k { assert ApartAt(bs, y, k); } else { assert ApartAt(bs, k, y); }
    }
    ApartFromRow(bs, i, j, b);
  }

  lemma RowOnly(bs: seq<Block>, i: nat, j: nat, x: nat)
    requires BlocksOk(bs) && i < j < |bs| && (forall k :: i <= k < j ==> InnerAt(bs, k)) && bs[i].addr <= x < bs[j].addr
    ensures !FreeAt(Outside(bs, i, j), x)
  {
    forall b | b in Outside(bs, i, j) ensures !Covers(b, x) { OutsideApart(bs, i, j, b); }
  }

  /** What a call that retiles one row needs: the row is free but for the block of
      `p`, the new blocks are free but for that of `q`. */
  ghost predicate Trade(bs: seq<Block>, i: nat, j: nat, parts: seq<Block>, p: nat, q: nat) {
    && BlocksOk(bs) && Fits(bs, i, j, parts) && FreeOr(bs[i..j], p) && FreeOr(parts, q)
    && (p == 0 || exists k :: i <= k < j && HasPtr(bs[k], p)) && (q == 0 || HasPtr(parts[0], q))
  }

  /** No block outside the row belongs to either pointer. */
  lemma OutsideStrange(bs: seq<Block>, i: nat, j: nat, parts: seq<Block>, p: nat, q: nat, b: Block)
    requires Trade(bs, i, j, parts, p, q) && b in Outside(bs, i, j)
    ensures !HasPtr(b, p) && !HasPtr(b, q)
  {
    OutsideApart(bs, i, j, b);
  }

  lemma SpliceHas(bs: seq<Block>, i: nat, j: nat, parts: seq<Block>, b: Block)
    requires i <= j <= |bs|
    ensures b in Splice(bs, i, j, parts) <==> b in Outside(bs, i, j) || b in parts
    ensures b in bs <==> b in Outside(bs, i, j) || b in bs[i..j]
  {
    assert bs == bs[..i] + bs[i..j] + bs[j..];
  }

  lemma FreeAtSplice(bs: seq<Block>, i: nat, j: nat, parts: seq<Block>, x: nat)
    requires i <= j <= |bs|
    ensures FreeAt(Splice(bs, i, j, parts), x) <==> FreeAt(Outside(bs, i, j), x) || FreeAt(parts, x)
    ensures FreeAt(bs, x) <==> FreeAt(Outside(bs, i, j), x) || FreeAt(bs[i..j], x)
  {
    forall b ensures b in Splice(bs, i, j, parts) <==> b in Outside(bs, i, j) || b in parts
             ensures b in bs <==> b in Outside(bs, i, j) || b in bs[i..j]
    {
      SpliceHas(bs, i, j, parts, b);
    }
  }

  lemma HeldAtSplice(bs: seq<Block>, i: nat, j: nat, parts: seq<Block>, p: nat, q: nat, x: nat)
    requires Trade(bs, i, j, parts, p, q)
    ensures HeldAt(Splice(bs, i, j, parts), q, x) <==> HeldAt(parts, q, x)
    ensures HeldAt(bs, p, x) <==> HeldAt(bs[i..j], p, x)
  {
    forall b ensures b in Splice(bs, i, j, parts) <==> b in Outside(bs, i, j) || b in parts
             ensures b in bs <==> b in Outside(bs, i, j) || b in bs[i..j]
    {
      SpliceHas(bs, i, j, parts, b);
    }
    forall b | b in Outside(bs, i, j) ensures !HasPtr(b, p) && !HasPtr(b, q) {
      OutsideStrange(bs, i, j, parts, p, q, b);
    }
  }

  lemma FreeOrCovers(bs: seq<Block>, p: nat, x: nat)
    requires FreeOr(bs, p)
    ensures FreeAt(bs, x) || HeldAt(bs, p, x) <==> Covered(bs, x)
  {
  }

  lemma PartsApart(parts: seq<Block>, q: nat, x: nat)
    requires |parts| == 1 || (|parts| == 2 && parts[0].Inner() && Joined(parts[0], parts[1]))
    ensures !(FreeAt(parts, x) && HeldAt(parts, q, x))
  {
    assert parts == if |parts| == 1 then [parts[0]] else [parts[0], parts[1]];
  }

  lemma TradeFree(bs: seq<Block>, i: nat, j: nat, parts: seq<Block>, p: nat, q: nat, x: nat)
    requires Trade(bs, i, j, parts, p, q)
    ensures FreeThere(bs, Splice(bs, i, j, parts), p, q, x)
  {
    FreeAtSplice(bs, i, j, parts, x);
    HeldAtSplice(bs, i, j, parts, p, q, x);
    RowCovers(bs, i, j, x);
    PartsCover(parts, x);
    PartsApart(parts, q, x);
    FreeOrCovers(bs[i..j], p, x);
    FreeOrCovers(parts, q, x);
    if bs[i].addr <= x < bs[j].addr { RowOnly(bs, i, j, x); }
    assert Covered(bs[i..j], x) <==> Covered(parts, x);
  }

  lemma TradeTotal(bs: seq<Block>, i: nat, j: nat, parts: seq<Block>, p: nat, q: nat)
    requires Trade(bs, i, j, parts, p, q)
    ensures var bs' := Splice(bs, i, j, parts);
            FreeTotal(bs') + LengthOf(bs', q) == FreeTotal(bs) + LengthOf(bs, p)
  {
    SplitLength(bs, i, j, bs[i..j], p);
    assert bs[..i] + bs[i..j] + bs[j..] == bs;
    SplitLength(bs, i, j, parts, q);
    forall b | b in Outside(bs, i, j) ensures !HasPtr(b, p) && !HasPtr(b, q) {
      OutsideStrange(bs, i, j, parts, p, q, b);
    }
    NoLength(Outside(bs, i, j), p);
    NoLength(Outside(bs, i, j), q);
    FreeOrTotal(bs[i..j], p);
    FreeOrTotal(parts, q);
    TotalRow(bs, i, j);
    TotalNew(parts);
  }

  lemma SplitLength(bs: seq<Block>, i: nat, j: nat, row: seq<Block>, p: nat)
    requires i <= j <= |bs|
    ensures var bs' := bs[..i] + row + bs[j..];
            && FreeTotal(bs') == FreeTotal(Outside(bs, i, j)) + FreeTotal(row)
            && LengthOf(bs', p) == LengthOf(Outside(bs, i, j), p) + LengthOf(row, p)
  {
    LengthAppend(bs[..i] + row, bs[j..], p);
    LengthAppend(bs[..i], row, p);
    LengthAppend(bs[..i], bs[j..], p);
  }

  lemma TradeOthers(bs: seq<Block>, i: nat, j: nat, parts: seq<Block>, p: nat, q: nat)
    requires Trade(bs, i, j, parts, p, q)
    ensures OthersKept(bs, Splice(bs, i, j, parts), p, q)
  {
    forall b: Block | b.kind == Used && !HasPtr(b, p) && !HasPtr(b, q)
      ensures b in Splice(bs, i, j, parts) <==> b in bs
    {
      SpliceHas(bs, i, j, parts, b);
    }
  }

  lemma LiveHas(bs: seq<Block>, p: nat)
    ensures Live(bs, p) <==> exists b <- bs :: HasPtr(b, p)
  {
    if Live(bs, p) {
      var k: nat :| Owns(bs, k, p);
      assert bs[k] in bs && HasPtr(bs[k], p);
    }
    if b :| b in bs && HasPtr(b, p) {
      var k :| 0 <= k < |bs| && bs[k] == b;
      assert Owns(bs, k, p);
    }
  }

  lemma TradeLive(bs: seq<Block>, i: nat, j: nat, parts: seq<Block>, p: nat, q: nat)
    requires Trade(bs, i, j, parts, p, q)
    ensures var bs' := Splice(bs, i, j, parts);
            (q != 0 ==> Live(bs', q)) && (p != q ==> !Live(bs', p) && !Live(bs, q))
  {
    var bs' := Splice(bs, i, j, parts);
    LiveHas(bs', q);
    LiveHas(bs', p);
    LiveHas(bs, q);
    SpliceHas(bs, i, j, parts, parts[0]);
    if p != q {
      forall b ensures !(b in bs' && HasPtr(b, p)) && !(b in bs && HasPtr(b, q)) {
        SpliceHas(bs, i, j, parts, b);
        if b in Outside(bs, i, j) { OutsideStrange(bs, i, j, parts, p, q, b); }
      }
    }
  }

  /** Retiling such a row exchanges the two pointers. */
  lemma TradeExchanges(bs: seq<Block>, i: nat, j: nat, parts: seq<Block>, p: nat, q: nat)
    requires Trade(bs, i, j, parts, p, q)
    ensures Exchanged(bs, Splice(bs, i, j, parts), p, q)
  {
    forall x: nat ensures FreeThere(bs, Splice(bs, i, j, parts), p, q, x) {
      TradeFree(bs, i, j, parts, p, q, x);
    }
    TradeTotal(bs, i, j, parts, p, q);
    TradeOthers(bs, i, j, parts, p, q);
    TradeLive(bs, i, j, parts, p, q);
  }

  // -------------------------------------------------------------- the calls

  /** The block of `q` is `lo` to `hi` bytes long. */
  ghost predicate Sized(bs: seq<Block>, q: nat, lo: nat, hi: nat) {
    exists j: nat :: Owns(bs, j, q) && lo <= bs[j].size <= hi
  }

  lemma RowFreeOr(bs: seq<Block>, i: nat, j: nat, p: nat)
    requires i <= j <= |bs| && forall k | i <= k < j :: bs[k].kind == Free || HasPtr(bs[k], p)
    ensures FreeOr(bs[i..j], p)
  {
  }

  lemma CarvedTrades(bs: seq<Block>, i: nat, need: nat)
    requires BlocksOk(bs) && i < |bs| && bs[i].kind == Free && NODE_S < need <= bs[i].size && need % 16 == 0
    ensures Trade(bs, i, i + 1, Carved(bs[i], need), 0, bs[i].addr + NODE_S)
  {
    CarvedFits(bs, i, need);
    RowFreeOr(bs, i, i + 1, 0);
  }

  /** A malloc that succeeds hands out a block of the size asked for, with at most
      a header's length more, and nothing else. */
  lemma MallocExchanges(bs: seq<Block>, size: nat, bs': seq<Block>, q: nat)
    requires BlocksOk(bs) && Malloc(bs, size, bs', q) && q != 0
    ensures Exchanged(bs, bs', 0, q) && Sized(bs', q, Need(size), Need(size) + NODE_S)
  {
    var need := Need(size);
    var i: nat :| BestFit(bs, i, need) && q == bs[i].addr + NODE_S && bs' == Splice(bs, i, i + 1, Carved(bs[i], need));
    CarvedTrades(bs, i, need);
    TradeExchanges(bs, i, i + 1, Carved(bs[i], need), 0, q);
    assert bs'[i] == Carved(bs[i], need)[0];
    assert Owns(bs', i, q);
  }

  /** A free gives up exactly the block. */
  lemma FreedExchanges(bs: seq<Block>, j: nat, p: nat)
    requires BlocksOk(bs) && Owns(bs, j, p)
    ensures Exchanged(bs, Freed(bs, j), p, 0)
  {
    MergedFits(bs, j);
    var i, k := MergeFrom(bs, j), MergeTo(bs, j);
    RowFreeOr(bs, i, k, p);
    assert HasPtr(bs[j], p);
    TradeExchanges(bs, i, k, Merged(bs, i, k), p, 0);
  }

  lemma HeldByOwner(bs: seq<Block>, j: nat, p: nat, x: nat)
    requires BlocksOk(bs) && Owns(bs, j, p)
    ensures HeldAt(bs, p, x) <==> bs[j].addr <= x < bs[j].End()
  {
    assert bs[j] in bs && HasPtr(bs[j], p);
    forall b | b in bs && HasPtr(b, p) ensures b == bs[j] {
      var k :| 0 <= k < |bs| && bs[k] == b;
      if k != j { AddressesDiffer(bs, k, j); }
    }
  }

  /** Its bytes, and no others, become free. */
  lemma FreedAccount(bs: seq<Block>, j: nat, p: nat)
    requires BlocksOk(bs) && Owns(bs, j, p)
    ensures Exchanged(bs, Freed(bs, j), p, 0) && !Live(Freed(bs, j), p)
    ensures FreeTotal(Freed(bs, j)) == FreeTotal(bs) + bs[j].size
    ensures forall x: nat :: FreeAt(Freed(bs, j), x) <==> FreeAt(bs, x) || bs[j].addr <= x < bs[j].End()
  {
    FreedExchanges(bs, j, p);
    LengthOfOwner(bs, j, p);
    NoPtrNull(Freed(bs, j));
    forall x: nat ensures FreeAt(Freed(bs, j), x) <==> FreeAt(bs, x) || bs[j].addr <= x < bs[j].End() {
      HeldByOwner(bs, j, p, x);
      assert FreeThere(bs, Freed(bs, j), p, 0, x);
    }
  }

  lemma ResizedTrades(bs: seq<Block>, j: nat, p: nat, need: nat)
    requires BlocksOk(bs) && Owns(bs, j, p) && need > NODE_S && need % 16 == 0
    requires j + 1 < |bs| && Resized(bs, j, need).InPlace?
    ensures var r := Resized(bs, j, need); Trade(bs, j, j + r.taken, r.parts, p, p)
    ensures need <= Resized(bs, j, need).parts[0].size <= need + NODE_S
  {
    ResizedFits(bs, j, need);
    var r := Resized(bs, j, need);
    assert HasPtr(bs[j], p);
    RowFreeOr(bs, j, j + r.taken, p);
  }

  /** The block can be given the size `need` where it is: it is long enough, or a
      free block follows that makes up for it and leaves nothing or more than a
      header's length. */
  predicate CanStay(bs: seq<Block>, j: nat, need: nat)
    requires j + 1 < |bs|
  {
    var b, next := bs[j], bs[j + 1];
    || need <= b.size
    || (next.kind == Free && (b.size + next.size == need || b.size + next.size > need + NODE_S))
  }

  lemma ResizedExchanges(bs: seq<Block>, j: nat, p: nat, need: nat, bs': seq<Block>)
    requires BlocksOk(bs) && Owns(bs, j, p) && need > NODE_S && need % 16 == 0 && j + 1 < |bs|
    requires var r := Resized(bs, j, need);
             r.InPlace? && j + r.taken <= |bs| && bs' == Splice(bs, j, j + r.taken, r.parts)
    ensures Exchanged(bs, bs', p, p) && Sized(bs', p, need, need + NODE_S)
  {
    var r := Resized(bs, j, need);
    ResizedTrades(bs, j, p, need);
    TradeExchanges(bs, j, j + r.taken, r.parts, p, p);
    assert bs'[j] == r.parts[0];
    assert Owns(bs', j, p);
  }

  // --------------------------------------------------------- one after the other

  lemma PtrKept(bs: seq<Block>, bs': seq<Block>, p: nat, q: nat, r: nat, b: Block)
    requires OthersKept(bs, bs', p, q) && r != p && r != q && HasPtr(b, r)
    ensures b in bs' <==> b in bs
  {
  }

  /** A pointer that is not part of the exchange keeps its addresses. */
  lemma HeldKept(bs: seq<Block>, bs': seq<Block>, p: nat, q: nat, r: nat, x: nat)
    requires OthersKept(bs, bs', p, q) && r != p && r != q
    ensures HeldAt(bs', r, x) <==> HeldAt(bs, r, x)
  {
    forall b | HasPtr(b, r) ensures b in bs' <==> b in bs { PtrKept(bs, bs', p, q, r, b); }
  }

  lemma LiveKept(bs: seq<Block>, bs': seq<Block>, p: nat, q: nat, r: nat)
    requires OthersKept(bs, bs', p, q) && r != p && r != q
    ensures Live(bs', r) <==> Live(bs, r)
  {
    LiveHas(bs, r);
    LiveHas(bs', r);
    forall b | HasPtr(b, r) ensures b in bs' <==> b in bs { PtrKept(bs, bs', p, q, r, b); }
  }

  lemma LengthKept(bs: seq<Block>, bs': seq<Block>, p: nat, q: nat, r: nat)
    requires BlocksOk(bs) && BlocksOk(bs') && OthersKept(bs, bs', p, q) && r != p && r != q && Live(bs, r)
    ensures LengthOf(bs', r) == LengthOf(bs, r)
  {
    var j: nat :| Owns(bs, j, r);
    PtrKept(bs, bs', p, q, r, bs[j]);
    var k :| 0 <= k < |bs'| && bs'[k] == bs[j];
    assert Owns(bs', k, r);
    LengthOfOwner(bs, j, r);
    LengthOfOwner(bs', k, r);
  }

  /** Two pointers hold no address in common. */
  lemma HeldApart(bs: seq<Block>, p: nat, q: nat, x: nat)
    requires BlocksOk(bs) && p != q
    ensures !(HeldAt(bs, p, x) && HeldAt(bs, q, x))
  {
    forall b, c | b in bs && c in bs && HasPtr(b, p) && HasPtr(c, q) ensures !(Covers(b, x) && Covers(c, x)) {
      var i :| 0 <= i < |bs| && bs[i] == b;
      var j :| 0 <= j < |bs| && bs[j] == c;
      if i < j { assert ApartAt(bs, i, j); } else { assert ApartAt(bs, j, i); }
    }
  }

  lemma BothFree(bs: seq<Block>, mid: seq<Block>, bs': seq<Block>, p: nat, q: nat, x: nat)
    requires BlocksOk(mid) && p != 0 && q != 0 && p != q
    requires FreeExactly(bs, mid, 0, q) && FreeExactly(mid, bs', p, 0)
    requires OthersKept(bs, mid, 0, q) && OthersKept(mid, bs', p, 0)
    ensures FreeThere(bs, bs', p, q, x)
  {
    HeldKept(bs, mid, 0, q, p, x);
    HeldKept(mid, bs', p, 0, q, x);
    HeldApart(mid, p, q, x);
    assert FreeThere(bs, mid, 0, q, x) && FreeThere(mid, bs', p, 0, x);
  }

  /** An allocation and then a release are one exchange. */
  lemma BothExchange(bs: seq<Block>, mid: seq<Block>, bs': seq<Block>, p: nat, q: nat)
    requires BlocksOk(bs) && BlocksOk(mid) && BlocksOk(bs') && p != 0 && q != 0 && p != q && Live(bs, p)
    requires Exchanged(bs, mid, 0, q) && Exchanged(mid, bs', p, 0)
    ensures Exchanged(bs, bs', p, q)
  {
    forall x: nat ensures FreeThere(bs, bs', p, q, x) {
      BothFree(bs, mid, bs', p, q, x);
    }
    BothOthers(bs, mid, bs', p, q);
    NoPtrNull(bs);
    NoPtrNull(bs');
    LengthKept(bs, mid, 0, q, p);
    LengthKept(mid, bs', p, 0, q);
    LiveKept(mid, bs', p, 0, q);
  }

  lemma BothOthers(bs: seq<Block>, mid: seq<Block>, bs': seq<Block>, p: nat, q: nat)
    requires OthersKept(bs, mid, 0, q) && OthersKept(mid, bs', p, 0)
    ensures OthersKept(bs, bs', p, q)
  {
    forall b: Block | b.kind == Used && !HasPtr(b, p) && !HasPtr(b, q) ensures b in bs' <==> b in bs {
      assert !HasPtr(b, 0);
      assert b in mid <==> b in bs;
    }
  }

  lemma SizedKept(bs: seq<Block>, bs': seq<Block>, p: nat, q: nat, r: nat, lo: nat, hi: nat)
    requires OthersKept(bs, bs', p, q) && r != p && r != q && Sized(bs, r, lo, hi)
    ensures Sized(bs', r, lo, hi)
  {
    var j: nat :| Owns(bs, j, r) && lo <= bs[j].size <= hi;
    PtrKept(bs, bs', p, q, r, bs[j]);
    var k :| 0 <= k < |bs'| && bs'[k] == bs[j];
    assert Owns(bs', k, r);
  }

  /** A block that moves: the new one is longer by the header that is added again. */
  lemma MovedExchanges(bs: seq<Block>, p: nat, need: nat, bs': seq<Block>, q: nat)
    requires BlocksOk(bs) && BlocksOk(bs') && Live(bs, p) && p != 0 && Moved(bs, p, need, bs', q) && q != 0
    ensures Exchanged(bs, bs', p, q) && p != q && Sized(bs', q, Need(need), Need(need) + NODE_S)
  {
    var mid :| BlocksOk(mid) && Malloc(bs, need, mid, q) && exists j: nat :: Owns(mid, j, p) && bs' == Freed(mid, j);
    var j: nat :| Owns(mid, j, p) && bs' == Freed(mid, j);
    MallocExchanges(bs, need, mid, q);
    FreedExchanges(mid, j, p);
    BothExchange(bs, mid, bs', p, q);
    SizedKept(mid, bs', p, 0, q, Need(need), Need(need) + NODE_S);
  }

  lemma MovedNull(bs: seq<Block>, p: nat, need: nat, bs': seq<Block>, q: nat)
    requires need > 0 && Moved(bs, p, need, bs', q)
    ensures q == 0 <==> NoFit(bs, Need(need))
    ensures q == 0 ==> bs' == bs
  {
    var mid :| BlocksOk(mid) && Malloc(bs, need, mid, q) &&
      if q == 0 then bs' == bs else exists j: nat :: Owns(mid, j, p) && bs' == Freed(mid, j);
  }

  /** What mdx_fl_realloc promises of a live pointer and a size that is not 0. */
  ghost predicate Regrown(bs: seq<Block>, bs': seq<Block>, j: nat, p: nat, need: nat, q: nat)
    requires j + 1 < |bs|
  {
    && (q == p <==> CanStay(bs, j, need)) && (q == 0 <==> !CanStay(bs, j, need) && NoFit(bs, Need(need)))
    && (q == 0 ==> bs' == bs)
    && (q != 0 ==> Exchanged(bs, bs', p, q) && Sized(bs', q, need, Need(need) + NODE_S))
    && (q == p ==> Sized(bs', q, need, need + NODE_S))
  }

  lemma SizedWider(bs: seq<Block>, q: nat, lo: nat, hi: nat, lo': nat, hi': nat)
    requires Sized(bs, q, lo, hi) && lo' <= lo && hi <= hi'
    ensures Sized(bs, q, lo', hi')
  {
  }

  lemma ReallocRegrows(bs: seq<Block>, j: nat, p: nat, size: nat, bs': seq<Block>, q: nat)
    requires BlocksOk(bs) && BlocksOk(bs') && Owns(bs, j, p) && size > 0 && ReallocOf(bs, j, p, size, bs', q)
    ensures j + 1 < |bs| && Regrown(bs, bs', j, p, Need(size), q)
  {
    ResizedStays(bs, j, Need(size));
    if Resized(bs, j, Need(size)).InPlace? {
      StaysRegrown(bs, j, p, Need(size), bs');
    } else {
      MovesRegrown(bs, j, p, Need(size), bs', q);
    }
  }

  lemma ResizedStays(bs: seq<Block>, j: nat, need: nat)
    requires j + 1 < |bs|
    ensures Resized(bs, j, need).InPlace? <==> CanStay(bs, j, need)
  {
  }

  lemma StaysRegrown(bs: seq<Block>, j: nat, p: nat, need: nat, bs': seq<Block>)
    requires BlocksOk(bs) && Owns(bs, j, p) && need > NODE_S && need % 16 == 0 && j + 1 < |bs|
    requires var r := Resized(bs, j, need);
             r.InPlace? && j + r.taken <= |bs| && bs' == Splice(bs, j, j + r.taken, r.parts)
    ensures Regrown(bs, bs', j, p, need, p)
  {
    ResizedExchanges(bs, j, p, need, bs');
    SizedWider(bs', p, need, need + NODE_S, need, Need(need) + NODE_S);
  }

  lemma MovesRegrown(bs: seq<Block>, j: nat, p: nat, need: nat, bs': seq<Block>, q: nat)
    requires BlocksOk(bs) && BlocksOk(bs') && Owns(bs, j, p) && need > 0 && j + 1 < |bs|
    requires !CanStay(bs, j, need) && Moved(bs, p, need, bs', q)
    ensures Regrown(bs, bs', j, p, need, q)
  {
    MovedNull(bs, p, need, bs', q);
    if q != 0 { MovedSized(bs, j, p, need, bs', q); }
  }

  lemma MovedSized(bs: seq<Block>, j: nat, p: nat, need: nat, bs': seq<Block>, q: nat)
    requires BlocksOk(bs) && BlocksOk(bs') && Owns(bs, j, p) && Moved(bs, p, need, bs', q) && q != 0
    ensures Exchanged(bs, bs', p, q) && p != q && Sized(bs', q, need, Need(need) + NODE_S)
  {
    MovedExchanges(bs, p, need, bs', q);
    SizedWider(bs', q, Need(need), Need(need) + NODE_S, need, Need(need) + NODE_S);
  }

  /** A region added to the zone is free but for a header at either end. */
  lemma RegionFree(bs: seq<Block>, base: nat, size: nat, x: nat)
    requires size > 3 * NODE_S
    ensures FreeAt(bs + Region(base, size), x) <==> FreeAt(bs, x) || base + NODE_S <= x < base + size - NODE_S
  {
    var r := Region(base, size);
    var free := Block(base + NODE_S, size - 2 * NODE_S, Free);
    if FreeAt(bs, x) {
      var b :| b in bs && b.kind == Free && Covers(b, x);
      assert b in bs + r;
    }
    if Covers(free, x) { assert r[1] == free && free in bs + r; }
  }

  lemma RegionTotal(bs: seq<Block>, base: nat, size: nat)
    requires size > 3 * NODE_S
    ensures FreeTotal(bs + Region(base, size)) == FreeTotal(bs) + size - 2 * NODE_S
  {
    var r := Region(base, size);
    LengthAppend(bs, r, 0);
    assert r[..2] == [r[0], r[1]] && r[..2][..1] == [r[0]] && [r[0]][..0] == [];
    assert FreeTotal(r[..2]) == FreeTotal(r[..2][..1]) + r[1].size;
  }
}
