/** What the allocator's operations do to the blocks. */
module FreeListSpec {
  import opened FreeListChain
  import opened FreeListBlocks

  /** The size of the block that serves a request: header added, rounded up to 16. */
  function Need(size: nat): (n: nat)
    ensures n % 16 == 0 && size + NODE_S <= n < size + NODE_S + 16
  {
    (size + NODE_S + 15) / 16 * 16
  }

  /** `i` is a smallest free block that is large enough. */
  ghost predicate BestFit(bs: seq<Block>, i: nat, need: nat) {
    && i < |bs| && bs[i].kind == Free && bs[i].size >= need
    && forall j :: 0 <= j < |bs| && bs[j].kind == Free && bs[j].size >= need ==> bs[i].size <= bs[j].size
  }

  ghost predicate NoFit(bs: seq<Block>, need: nat) {
    forall j :: 0 <= j < |bs| && bs[j].kind == Free ==> bs[j].size < need
  }

  /** A free block put to use, split if more than a header is left over. */
  function Carved(b: Block, need: nat): seq<Block> {
    if b.size > need + NODE_S then [Block(b.addr, need, Used), Block(b.addr + need, b.size - need, Free)]
    else [Block(b.addr, b.size, Used)]
  }

  lemma CarvedFits(bs: seq<Block>, i: nat, need: nat)
    requires BlocksOk(bs) && i < |bs| && bs[i].kind == Free
    requires NODE_S < need <= bs[i].size && need % 16 == 0
    ensures 0 < i < |bs| - 1 && Fits(bs, i, i + 1, Carved(bs[i], need))
  {
    assert JoinedAt(bs, i) && JoinedAt(bs, i - 1) && BlockAt(bs, i);
  }

  /** mdx_fl_malloc: NULL for an empty request or when no free block is large
      enough; otherwise the payload of a best fit. */
  ghost predicate Malloc(bs: seq<Block>, size: nat, bs': seq<Block>, p: nat) {
    if size == 0 || NoFit(bs, Need(size)) then p == 0 && bs' == bs
    else exists i: nat ::
      BestFit(bs, i, Need(size)) && p == bs[i].addr + NODE_S &&
      bs' == Splice(bs, i, i + 1, Carved(bs[i], Need(size)))
  }

  /** `p` is the payload of the block in use `j`. */
  predicate Owns(bs: seq<Block>, j: nat, p: nat) {
    j < |bs| && bs[j].kind == Used && p == bs[j].addr + NODE_S
  }

  ghost predicate Live(bs: seq<Block>, p: nat) {
    exists j: nat :: Owns(bs, j, p)
  }

  /** The free neighbours that a released block joins. */
  function MergeFrom(bs: seq<Block>, j: nat): nat
    requires 0 < j < |bs|
  {
    if bs[j - 1].kind == Free then j - 1 else j
  }

  function MergeTo(bs: seq<Block>, j: nat): nat
    requires j + 1 < |bs|
  {
    if bs[j + 1].kind == Free then j + 2 else j + 1
  }

  function Merged(bs: seq<Block>, i: nat, k: nat): seq<Block>
    requires i < k < |bs| && bs[i].addr <= bs[k].addr
  {
    [Block(bs[i].addr, bs[k].addr - bs[i].addr, Free)]
  }

  lemma MergedFits(bs: seq<Block>, j: nat)
    requires BlocksOk(bs) && j < |bs| && bs[j].kind == Used
    ensures 0 < j < |bs| - 1
    ensures var i, k := MergeFrom(bs, j), MergeTo(bs, j);
            k < |bs| && bs[i].addr <= bs[k].addr && Fits(bs, i, k, Merged(bs, i, k))
  {
    assert JoinedAt(bs, j) && JoinedAt(bs, j - 1) && BlockAt(bs, j);
    if bs[j + 1].kind == Free {
      assert BlockAt(bs, j + 1) && JoinedAt(bs, j + 1);
    }
    if bs[j - 1].kind == Free {
      assert BlockAt(bs, j - 1) && JoinedAt(bs, j - 2);
    }
  }

  /** mdx_fl_free of the block `j`. */
  ghost function Freed(bs: seq<Block>, j: nat): seq<Block>
    requires BlocksOk(bs) && j < |bs| && bs[j].kind == Used
  {
    MergedFits(bs, j);
    var i, k := MergeFrom(bs, j), MergeTo(bs, j);
    Splice(bs, i, k, Merged(bs, i, k))
  }

  /** The in-place results of mdx_fl_realloc: the number of old blocks used up,
      and the blocks that replace them; none if the block has to move. */
  datatype Resize = InPlace(taken: nat, parts: seq<Block>) | Move

  function Resized(bs: seq<Block>, j: nat, need: nat): Resize
    requires j + 1 < |bs|
  {
    var b, next := bs[j], bs[j + 1];
    if need <= b.size then
      if next.kind == Free then
        InPlace(2, [Block(b.addr, need, Used), Block(b.addr + need, next.size + b.size - need, Free)])
      else if b.size > need + NODE_S then
        InPlace(1, [Block(b.addr, need, Used), Block(b.addr + need, b.size - need, Free)])
      else InPlace(1, [b])
    else if next.kind == Free && b.size + next.size > need + NODE_S then
      InPlace(2, [Block(b.addr, need, Used), Block(b.addr + need, next.size + b.size - need, Free)])
    else if next.kind == Free && b.size + next.size == need then
      InPlace(2, [Block(b.addr, need, Used)])
    else Move
  }

  lemma ResizedFits(bs: seq<Block>, j: nat, need: nat)
    requires BlocksOk(bs) && j < |bs| && bs[j].kind == Used && need > NODE_S && need % 16 == 0
    ensures 0 < j < |bs| - 1
    ensures var r := Resized(bs, j, need); r.InPlace? ==> Fits(bs, j, j + r.taken, r.parts)
  {
    assert JoinedAt(bs, j) && JoinedAt(bs, j - 1) && BlockAt(bs, j) && BlockAt(bs, j + 1);
    if bs[j + 1].kind == Free {
      assert JoinedAt(bs, j + 1);
    }
  }

  /** mdx_fl_realloc.  A block that cannot be resized in place moves to one
      allocated for the padded size; if there is none, nothing changes. */
  ghost predicate Realloc(bs: seq<Block>, p: nat, size: nat, bs': seq<Block>, q: nat)
    requires BlocksOk(bs)
  {
    if p == 0 then Malloc(bs, size, bs', q)
    else exists j: nat :: Owns(bs, j, p) && ReallocOf(bs, j, p, size, bs', q)
  }

  ghost predicate ReallocOf(bs: seq<Block>, j: nat, p: nat, size: nat, bs': seq<Block>, q: nat)
    requires BlocksOk(bs) && Owns(bs, j, p)
  {
    if size == 0 then q == 0 && bs' == Freed(bs, j)
    else j + 1 < |bs| && match Resized(bs, j, Need(size))
      case InPlace(taken, parts) => j + taken <= |bs| && q == p && bs' == Splice(bs, j, j + taken, parts)
      case Move => Moved(bs, p, Need(size), bs', q)
  }

  ghost predicate Moved(bs: seq<Block>, p: nat, need: nat, bs': seq<Block>, q: nat) {
    exists mid :: BlocksOk(mid) && Malloc(bs, need, mid, q) &&
      if q == 0 then bs' == bs else exists j: nat :: Owns(mid, j, p) && bs' == Freed(mid, j)
  }

  // --------------------------------------------------------- blocks that stay

  lemma StaysInSplice(bs: seq<Block>, i: nat, j: nat, parts: seq<Block>, k: nat)
    requires i <= j <= |bs| && k < |bs| && !(i <= k < j)
    ensures bs[k] in Splice(bs, i, j, parts)
  {
    var bs' := Splice(bs, i, j, parts);
    assert bs[k] == if k < i then bs'[k] else bs'[k + |parts| - (j - i)];
  }

  /** Allocation leaves the blocks in use as they are. */
  lemma MallocKeepsUsed(bs: seq<Block>, size: nat, bs': seq<Block>, p: nat, k: nat)
    requires Malloc(bs, size, bs', p) && k < |bs| && bs[k].kind == Used
    ensures bs[k] in bs'
  {
    if bs' != bs {
      var i: nat :| BestFit(bs, i, Need(size)) && bs' == Splice(bs, i, i + 1, Carved(bs[i], Need(size)));
      CarvedKeepsUsed(bs, i, Need(size), k);
    }
  }

  lemma CarvedKeepsUsed(bs: seq<Block>, i: nat, need: nat, k: nat)
    requires BestFit(bs, i, need) && k < |bs| && bs[k].kind == Used
    ensures bs[k] in Splice(bs, i, i + 1, Carved(bs[i], need))
  {
    StaysInSplice(bs, i, i + 1, Carved(bs[i], need), k);
  }

  /** What allocation returns is the payload of a new block in use. */
  lemma MallocOwns(bs: seq<Block>, size: nat, bs': seq<Block>, p: nat) returns (j: nat)
    requires BlocksOk(bs) && Malloc(bs, size, bs', p) && p != 0
    ensures Owns(bs', j, p) && bs'[j].size >= Need(size)
    ensures forall k: nat :: Owns(bs, k, p) ==> false
  {
    var i: nat :| BestFit(bs, i, Need(size)) && p == bs[i].addr + NODE_S
                  && bs' == Splice(bs, i, i + 1, Carved(bs[i], Need(size)));
    j := i;
    assert bs'[i] == Carved(bs[i], Need(size))[0];
    forall k: nat | Owns(bs, k, p)
      ensures false
    {
      AddressesDiffer(bs, i, k);
    }
  }

  /** Releasing a block leaves the others in use as they are. */
  lemma FreedKeepsUsed(bs: seq<Block>, j: nat, k: nat)
    requires BlocksOk(bs) && j < |bs| && bs[j].kind == Used && k < |bs| && bs[k].kind == Used && k != j
    ensures bs[k] in Freed(bs, j)
  {
    MergedFits(bs, j);
    StaysInSplice(bs, MergeFrom(bs, j), MergeTo(bs, j), Merged(bs, MergeFrom(bs, j), MergeTo(bs, j)), k);
  }
}
