/** What the allocator's memory is made of: blocks that tile each region
    between two sentinels, with a size tag on both sides of every border. */
module FreeListBlocks {
  import opened FreeListChain

  datatype Kind = First | Last | Free | Used

  /** A block of a region, its header included. */
  datatype Block = Block(addr: nat, size: nat, kind: Kind) {
    function End(): nat { addr + size }
    predicate Inner() { kind == Free || kind == Used }
  }

  predicate Disjoint(b: Block, c: Block) {
    b.End() <= c.addr || c.End() <= b.addr
  }

  /** Sentinels are bare headers; other blocks have a payload. */
  predicate BlockOk(b: Block) {
    if b.Inner() then b.size > NODE_S else b.size == NODE_S
  }

  /** Neighbours touch, and are not both free; a region ends where the next one starts. */
  predicate Joined(b: Block, c: Block) {
    if b.kind == Last then c.kind == First
    else c.kind != First && c.addr == b.End() && !(b.kind == Free && c.kind == Free)
  }

  ghost predicate JoinedAt(bs: seq<Block>, i: nat)
    requires i + 1 < |bs|
  {
    Joined(bs[i], bs[i + 1])
  }

  ghost predicate BlockAt(bs: seq<Block>, i: nat)
    requires i < |bs|
  {
    BlockOk(bs[i])
  }

  ghost predicate ApartAt(bs: seq<Block>, i: nat, j: nat)
    requires i < |bs| && j < |bs|
  {
    Disjoint(bs[i], bs[j])
  }

  /** The blocks of all regions, region after region. */
  ghost predicate BlocksOk(bs: seq<Block>) {
    && (|bs| > 0 ==> bs[0].kind == First && bs[|bs| - 1].kind == Last)
    && (forall i :: 0 <= i < |bs| ==> BlockAt(bs, i))
    && (forall i :: 0 <= i < |bs| - 1 ==> JoinedAt(bs, i))
    && (forall i, j :: 0 <= i < j < |bs| ==> ApartAt(bs, i, j))
  }

  /** What the low bits of a header's flags hold. */
  function PrevSize(bs: seq<Block>, i: nat): nat
    requires i < |bs|
  {
    if i == 0 || bs[i].kind == First then 0 else bs[i - 1].size
  }

  ghost predicate TagAt(m: Headers, bs: seq<Block>, i: nat)
    requires i < |bs|
  {
    var r := At(bs[i].addr);
    && r in m
    && m[r].size == bs[i].size
    && m[r].inUse == (bs[i].kind != Free)
    && m[r].prevSize == PrevSize(bs, i)
  }

  ghost predicate TagsOk(m: Headers, bs: seq<Block>) {
    forall i :: 0 <= i < |bs| ==> TagAt(m, bs, i)
  }

  // -------------------------------------------------- replacing part of a region

  /** `bs` with the blocks `i` to `j - 1` replaced. */
  function Splice(bs: seq<Block>, i: nat, j: nat, parts: seq<Block>): seq<Block>
    requires i <= j <= |bs|
  {
    bs[..i] + parts + bs[j..]
  }

  ghost predicate InnerAt(bs: seq<Block>, k: nat)
    requires k < |bs|
  {
    bs[k].Inner()
  }

  /** One or two inner blocks that cover exactly what the blocks `i` to `j - 1`
      cover, and leave no two free blocks side by side. */
  ghost predicate Fits(bs: seq<Block>, i: nat, j: nat, parts: seq<Block>) {
    && 0 < i < j < |bs|
    && (forall k :: i <= k < j ==> InnerAt(bs, k))
    && (|parts| == 1 || (|parts| == 2 && Joined(parts[0], parts[1]) && parts[1].Inner() && BlockOk(parts[1])))
    && parts[0].Inner() && BlockOk(parts[0])
    && parts[0].addr == bs[i].addr && parts[|parts| - 1].End() == bs[j].addr
    && !(bs[i - 1].kind == Free && parts[0].kind == Free)
    && !(bs[j].kind == Free && parts[|parts| - 1].kind == Free)
  }

  /** A block apart from each of a row of touching blocks is apart from the whole row. */
  lemma {:induction false} ApartFromRow(bs: seq<Block>, i: nat, j: nat, c: Block)
    requires BlocksOk(bs) && i < j < |bs| && c.size > 0
    requires forall k :: i <= k < j ==> InnerAt(bs, k) && Disjoint(bs[k], c)
    ensures c.End() <= bs[i].addr || bs[j].addr <= c.addr
  {
    assert JoinedAt(bs, j - 1) && BlockAt(bs, j - 1) && InnerAt(bs, j - 1);
    if i + 1 < j {
      ApartFromRow(bs, i, j - 1, c);
    }
  }

  /** Index into a splice. */
  function Source(i: nat, j: nat, n: nat, k: nat): int {
    if k < i then k else k - n - i + j
  }

  lemma SpliceOutside(bs: seq<Block>, i: nat, j: nat, parts: seq<Block>, k: nat)
    requires i <= j <= |bs| && k < |Splice(bs, i, j, parts)|
    ensures i <= k < i + |parts| ==> Splice(bs, i, j, parts)[k] == parts[k - i]
    ensures !(i <= k < i + |parts|) ==>
              0 <= Source(i, j, |parts|, k) < |bs| && Splice(bs, i, j, parts)[k] == bs[Source(i, j, |parts|, k)]
  {
  }

  lemma SpliceApart(bs: seq<Block>, i: nat, j: nat, parts: seq<Block>, k: nat, x: nat)
    requires BlocksOk(bs) && Fits(bs, i, j, parts) && k < |parts| && x < |bs| && !(i <= x < j)
    ensures Disjoint(parts[k], bs[x])
  {
    assert BlockAt(bs, x);
    forall y | i <= y < j
      ensures InnerAt(bs, y) && Disjoint(bs[y], bs[x])
    {
      if x < y { assert ApartAt(bs, x, y); } else { assert ApartAt(bs, y, x); }
    }
    ApartFromRow(bs, i, j, bs[x]);
  }

  lemma SpliceJoined(bs: seq<Block>, i: nat, j: nat, parts: seq<Block>, k: nat)
    requires BlocksOk(bs) && Fits(bs, i, j, parts) && k + 1 < |Splice(bs, i, j, parts)|
    ensures JoinedAt(Splice(bs, i, j, parts), k)
  {
    var n := |parts|;
    SpliceOutside(bs, i, j, parts, k);
    SpliceOutside(bs, i, j, parts, k + 1);
    if k + 1 < i {
      assert JoinedAt(bs, k);
    } else if k + 1 == i {
      assert JoinedAt(bs, i - 1) && InnerAt(bs, i);
    } else if k + 1 == i + n {
      assert JoinedAt(bs, j - 1) && InnerAt(bs, j - 1);
    } else if k >= i + n {
      assert JoinedAt(bs, Source(i, j, n, k));
    }
  }

  lemma SpliceDisjoint(bs: seq<Block>, i: nat, j: nat, parts: seq<Block>, k: nat, l: nat)
    requires BlocksOk(bs) && Fits(bs, i, j, parts) && k < l < |Splice(bs, i, j, parts)|
    ensures Disjoint(Splice(bs, i, j, parts)[k], Splice(bs, i, j, parts)[l])
  {
    var n := |parts|;
    SpliceOutside(bs, i, j, parts, k);
    SpliceOutside(bs, i, j, parts, l);
    var x, y := Source(i, j, n, k), Source(i, j, n, l);
    if i <= k < i + n {
      if !(i <= l < i + n) { SpliceApart(bs, i, j, parts, k - i, y); }
    } else if i <= l < i + n {
      SpliceApart(bs, i, j, parts, l - i, x);
    } else {
      assert ApartAt(bs, x, y);
    }
  }

  /** Retiling part of a region keeps the tiling. */
  lemma SpliceOk(bs: seq<Block>, i: nat, j: nat, parts: seq<Block>)
    requires BlocksOk(bs) && Fits(bs, i, j, parts)
    ensures BlocksOk(Splice(bs, i, j, parts))
  {
    var bs' := Splice(bs, i, j, parts);
    forall k | 0 <= k < |bs'|
      ensures BlockAt(bs', k)
    {
      SpliceOutside(bs, i, j, parts, k);
      if !(i <= k < i + |parts|) { assert BlockAt(bs, Source(i, j, |parts|, k)); }
    }
    forall k | 0 <= k < |bs'| - 1
      ensures JoinedAt(bs', k)
    {
      SpliceJoined(bs, i, j, parts, k);
    }
    forall k, l | 0 <= k < l < |bs'|
      ensures ApartAt(bs', k, l)
    {
      SpliceDisjoint(bs, i, j, parts, k, l);
    }
  }

  /** The header `h` carries the tag of block `b` after a block of size `prev`. */
  predicate Carries(h: Header, b: Block, prev: nat) {
    h.size == b.size && h.inUse == (b.kind != Free) && h.prevSize == prev
  }

  /** Headers `m'` after the blocks `i` to `j - 1` are replaced: the new blocks
      have theirs, the block that follows has the new size before it, and all
      others keep their tags. */
  ghost predicate Retagged(m: Headers, m': Headers, bs: seq<Block>, i: nat, j: nat, parts: seq<Block>)
    requires 0 < i < j < |bs| && 0 < |parts| <= 2
  {
    && (forall k :: 0 <= k < |bs| && !(i <= k <= j) ==> KeptAt(m, m', bs, k))
    && At(bs[j].addr) in m'
    && Carries(m'[At(bs[j].addr)], bs[j], parts[|parts| - 1].size)
    && At(parts[0].addr) in m' && Carries(m'[At(parts[0].addr)], parts[0], PrevSize(bs, i))
    && (|parts| == 2 ==> At(parts[1].addr) in m' && Carries(m'[At(parts[1].addr)], parts[1], parts[0].size))
  }

  ghost predicate KeptAt(m: Headers, m': Headers, bs: seq<Block>, k: nat)
    requires k < |bs|
  {
    At(bs[k].addr) in m ==> At(bs[k].addr) in m' && SameTag(m[At(bs[k].addr)], m'[At(bs[k].addr)])
  }

  predicate SameTag(h: Header, h': Header) {
    h'.size == h.size && h'.inUse == h.inUse && h'.prevSize == h.prevSize
  }

  lemma SpliceTagAt(m: Headers, m': Headers, bs: seq<Block>, i: nat, j: nat, parts: seq<Block>, k: nat)
    requires BlocksOk(bs) && Fits(bs, i, j, parts) && TagsOk(m, bs) && Retagged(m, m', bs, i, j, parts)
    requires k < |Splice(bs, i, j, parts)|
    ensures TagAt(m', Splice(bs, i, j, parts), k)
  {
    var n := |parts|;
    SpliceOutside(bs, i, j, parts, k);
    if k > 0 { SpliceOutside(bs, i, j, parts, k - 1); }
    if k < i {
      assert TagAt(m, bs, k) && KeptAt(m, m', bs, k);
    } else if k == i {
      assert InnerAt(bs, i);
    } else if k == i + n {
      assert JoinedAt(bs, j - 1) && InnerAt(bs, j - 1);
    } else if k > i + n {
      assert TagAt(m, bs, Source(i, j, n, k)) && KeptAt(m, m', bs, Source(i, j, n, k));
    }
  }

  lemma SpliceTags(m: Headers, m': Headers, bs: seq<Block>, i: nat, j: nat, parts: seq<Block>)
    requires BlocksOk(bs) && Fits(bs, i, j, parts) && TagsOk(m, bs) && Retagged(m, m', bs, i, j, parts)
    ensures TagsOk(m', Splice(bs, i, j, parts))
  {
    forall k | 0 <= k < |Splice(bs, i, j, parts)|
      ensures TagAt(m', Splice(bs, i, j, parts), k)
    {
      SpliceTagAt(m, m', bs, i, j, parts, k);
    }
  }

  /** The tags of one block that ends at `subs`. */
  function OnePart(m: Headers, node: Ref, size: nat, inUse: bool, subs: Ref): Headers
    requires node in m && subs in m
  {
    m[subs := m[subs].(prevSize := size)][node := m[node].(size := size, inUse := inUse)]
  }

  /** The tags of a block in use of `need` bytes and a free one of `rest` bytes
      that ends at `subs`. */
  function TwoParts(m: Headers, node: Ref, need: nat, rest: nat, subs: Ref): Headers
    requires node.At? && node in m && subs in m
  {
    m[subs := m[subs].(prevSize := rest)]
     [node := m[node].(size := need, inUse := true)]
     [At(node.addr + need) := Header(Null, Null, rest, need, false)]
  }

  /** The blocks outside the replaced row have other headers than those written. */
  lemma OthersApart(bs: seq<Block>, i: nat, j: nat, parts: seq<Block>)
    requires BlocksOk(bs) && Fits(bs, i, j, parts)
    ensures forall k :: 0 <= k < |bs| && !(i <= k <= j) ==>
              bs[k].addr != bs[j].addr && forall l :: 0 <= l < |parts| ==> bs[k].addr != parts[l].addr
    ensures forall l :: 0 <= l < |parts| ==> parts[l].addr != bs[j].addr
  {
    forall k | 0 <= k < |bs| && !(i <= k <= j)
      ensures bs[k].addr != bs[j].addr && forall l :: 0 <= l < |parts| ==> bs[k].addr != parts[l].addr
    {
      AddressesDiffer(bs, k, j);
      forall l | 0 <= l < |parts|
        ensures bs[k].addr != parts[l].addr
      {
        SpliceApart(bs, i, j, parts, l, k);
        assert BlockAt(bs, k) && BlockOk(parts[l]);
      }
    }
    assert forall l :: 0 <= l < |parts| ==> BlockOk(parts[l]);
  }

  lemma OnePartRetags(m: Headers, m': Headers, bs: seq<Block>, i: nat, j: nat, b: Block)
    requires BlocksOk(bs) && TagsOk(m, bs) && Fits(bs, i, j, [b])
    requires At(b.addr) in m && At(bs[j].addr) in m
    requires SameTags(OnePart(m, At(b.addr), b.size, b.kind != Free, At(bs[j].addr)), m')
    ensures Retagged(m, m', bs, i, j, [b])
  {
    OthersApart(bs, i, j, [b]);
    assert [b][0] == b;
    assert TagAt(m, bs, i) && TagAt(m, bs, j);
  }

  lemma TwoPartsRetag(m: Headers, m': Headers, bs: seq<Block>, i: nat, j: nat, b: Block, c: Block)
    requires BlocksOk(bs) && TagsOk(m, bs) && Fits(bs, i, j, [b, c]) && b.kind == Used && c.kind == Free
    requires At(b.addr) in m && At(bs[j].addr) in m
    requires SameTags(TwoParts(m, At(b.addr), b.size, c.size, At(bs[j].addr)), m')
    ensures Retagged(m, m', bs, i, j, [b, c])
  {
    OthersApart(bs, i, j, [b, c]);
    assert [b, c][0] == b && [b, c][1] == c;
    assert TagAt(m, bs, i) && TagAt(m, bs, j);
  }

  // -------------------------------------------------------------- free blocks

  ghost function FreeRefs(bs: seq<Block>): set<Ref> {
    set k | 0 <= k < |bs| && bs[k].kind == Free :: At(bs[k].addr)
  }

  lemma FreeRefsAppend(a: seq<Block>, b: seq<Block>)
    ensures FreeRefs(a + b) == FreeRefs(a) + FreeRefs(b)
  {
    var c := a + b;
    forall r | r in FreeRefs(a)
      ensures r in FreeRefs(c)
    {
      var k :| 0 <= k < |a| && a[k].kind == Free && r == At(a[k].addr);
      assert c[k] == a[k];
    }
    forall r | r in FreeRefs(b)
      ensures r in FreeRefs(c)
    {
      var k :| 0 <= k < |b| && b[k].kind == Free && r == At(b[k].addr);
      assert c[|a| + k] == b[k];
    }
  }

  lemma FreeRefsSplice(bs: seq<Block>, i: nat, j: nat, parts: seq<Block>)
    requires i <= j <= |bs|
    ensures FreeRefs(Splice(bs, i, j, parts)) == FreeRefs(bs[..i]) + FreeRefs(parts) + FreeRefs(bs[j..])
    ensures FreeRefs(bs) == FreeRefs(bs[..i]) + FreeRefs(bs[i..j]) + FreeRefs(bs[j..])
  {
    FreeRefsAppend(bs[..i] + parts, bs[j..]);
    FreeRefsAppend(bs[..i], parts);
    assert bs == bs[..i] + bs[i..j] + bs[j..];
    FreeRefsAppend(bs[..i] + bs[i..j], bs[j..]);
    FreeRefsAppend(bs[..i], bs[i..j]);
  }

  /** Blocks at different places have different addresses. */
  lemma AddressesDiffer(bs: seq<Block>, x: nat, y: nat)
    requires BlocksOk(bs) && x < |bs| && y < |bs| && x != y
    ensures bs[x].addr != bs[y].addr
  {
    assert BlockAt(bs, x) && BlockAt(bs, y);
    if x < y { assert ApartAt(bs, x, y); } else { assert ApartAt(bs, y, x); }
  }

  /** How the set of free headers changes: those of the replaced blocks go,
      those of the new blocks come. */
  lemma FreeRefsChange(bs: seq<Block>, i: nat, j: nat, parts: seq<Block>)
    requires BlocksOk(bs) && i <= j <= |bs|
    ensures FreeRefs(Splice(bs, i, j, parts)) == FreeRefs(bs) - FreeRefs(bs[i..j]) + FreeRefs(parts)
  {
    FreeRefsSplice(bs, i, j, parts);
    forall r | r in FreeRefs(bs[i..j]) && (r in FreeRefs(bs[..i]) || r in FreeRefs(bs[j..]))
      ensures false
    {
      var k :| 0 <= k < j - i && bs[i..j][k].kind == Free && r == At(bs[i..j][k].addr);
      var l :| 0 <= l < |bs| && !(i <= l < j) && r == At(bs[l].addr);
      AddressesDiffer(bs, i + k, l);
    }
  }

  lemma FreeRefsOne(b: Block)
    ensures FreeRefs([b]) == if b.kind == Free then {At(b.addr)} else {}
  {
    assert [b][0] == b;
  }

  lemma FreeRefsTwo(b: Block, c: Block)
    ensures FreeRefs([b, c]) == FreeRefs([b]) + FreeRefs([c])
  {
    assert [b, c] == [b] + [c];
    FreeRefsAppend([b], [c]);
  }

  lemma FreeRefsRow(bs: seq<Block>, i: nat, j: nat)
    requires i < j <= |bs| && j <= i + 2
    ensures FreeRefs(bs[i..j]) == FreeRefs([bs[i]]) + if j == i + 2 then FreeRefs([bs[i + 1]]) else {}
  {
    if j == i + 2 {
      assert bs[i..j] == [bs[i], bs[i + 1]];
      FreeRefsTwo(bs[i], bs[i + 1]);
    } else {
      assert bs[i..j] == [bs[i]];
    }
  }
}
