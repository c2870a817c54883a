/** Payload bytes, and the header writes that could destroy them. */
module FreeListData {
  import opened FreeListChain
  import opened FreeListBlocks
  import opened FreeListHeap

  /** Byte values by address. */
  type Bytes = map<nat, nat>

  /** Byte `x` of memory belongs to the header at `r`. */
  predicate InHeader(r: Ref, x: nat) {
    r.At? && r.addr <= x < r.addr + NODE_S
  }

  /** Writing the header at `r` destroys the bytes it covers. */
  function Clobber(data: Bytes, r: Ref): Bytes {
    map x | x in data && !InHeader(r, x) :: data[x]
  }

  /** Every byte outside the headers `rs` keeps its value. */
  ghost predicate Keeps(d: Bytes, d': Bytes, rs: set<Ref>) {
    forall x <- d :: (forall r <- rs :: !InHeader(r, x)) ==> x in d' && d'[x] == d[x]
  }

  ghost function HeaderRefs(bs: seq<Block>): set<Ref> {
    set k | 0 <= k < |bs| :: At(bs[k].addr)
  }

  ghost predicate PayloadOf(bs: seq<Block>, k: nat, x: nat) {
    k < |bs| && bs[k].kind == Used && bs[k].addr + NODE_S <= x < bs[k].End()
  }

  /** Byte `x` belongs to a block in use. */
  ghost predicate Payload(bs: seq<Block>, x: nat) {
    exists k: nat :: PayloadOf(bs, k, x)
  }

  /** Bytes that are payload before and after keep their values. */
  ghost predicate Intact(bs: seq<Block>, d: Bytes, bs': seq<Block>, d': Bytes) {
    forall x <- d :: Payload(bs, x) && Payload(bs', x) ==> x in d' && d'[x] == d[x]
  }

  lemma PayloadApart(bs: seq<Block>, x: nat, r: Ref)
    requires BlocksOk(bs) && Payload(bs, x) && r in HeaderRefs(bs)
    ensures !InHeader(r, x)
  {
    var k: nat :| PayloadOf(bs, k, x);
    var l :| 0 <= l < |bs| && r == At(bs[l].addr);
    assert BlockAt(bs, l);
    if l < k { assert ApartAt(bs, l, k); } else if k < l { assert ApartAt(bs, k, l); }
  }

  /** Headers that an operation which turns `bs` into `bs'` may write. */
  ghost function Writable(bs: seq<Block>, bs': seq<Block>): set<Ref> {
    HeadRefs() + HeaderRefs(bs) + HeaderRefs(bs')
  }

  lemma WritableKeepsPayload(bs: seq<Block>, bs': seq<Block>, d: Bytes, d': Bytes)
    requires BlocksOk(bs) && BlocksOk(bs') && Keeps(d, d', Writable(bs, bs'))
    ensures Intact(bs, d, bs', d')
  {
    forall x <- d | Payload(bs, x) && Payload(bs', x)
      ensures x in d' && d'[x] == d[x]
    {
      forall r <- Writable(bs, bs')
        ensures !InHeader(r, x)
      {
        if r in HeaderRefs(bs) {
          PayloadApart(bs, x, r);
        } else if r in HeaderRefs(bs') {
          PayloadApart(bs', x, r);
        }
      }
    }
  }

  lemma ChainWritable(m: Headers, chain: seq<Ref>, bs: seq<Block>, bs': seq<Block>)
    requires HeapOk(m, chain, bs)
    ensures Elems(chain) <= Writable(bs, bs')
  {
  }

  lemma SpliceHeaders(bs: seq<Block>, i: nat, j: nat, parts: seq<Block>)
    requires i <= j <= |bs|
    ensures forall k :: 0 <= k < |parts| ==> At(parts[k].addr) in HeaderRefs(Splice(bs, i, j, parts))
    ensures forall k :: 0 <= k < |bs| ==> At(bs[k].addr) in HeaderRefs(bs)
  {
    forall k | 0 <= k < |parts|
      ensures At(parts[k].addr) in HeaderRefs(Splice(bs, i, j, parts))
    {
      assert Splice(bs, i, j, parts)[i + k] == parts[k];
    }
  }

  datatype Byte = Unknown | Known(value: nat)

  function ByteAt(d: Bytes, x: nat): Byte {
    if x in d then Known(d[x]) else Unknown
  }

  /** What memcpy(dst, src, n) does. */
  ghost predicate CopyOf(d: Bytes, d': Bytes, dst: nat, src: nat, n: nat) {
    forall x: nat {:trigger ByteAt(d', x)} ::
      ByteAt(d', x) == if dst <= x < dst + n then ByteAt(d, src + (x - dst)) else ByteAt(d, x)
  }

  lemma CopyOne(d: Bytes, d1: Bytes, d2: Bytes, dst: nat, src: nat, i: nat)
    requires CopyOf(d, d1, dst, src, i) && (dst + i < src || src + i < dst)
    requires d2 == if src + i in d1 then d1[dst + i := d1[src + i]] else d1 - {dst + i}
    ensures CopyOf(d, d2, dst, src, i + 1)
  {
    assert ByteAt(d1, src + i) == ByteAt(d, src + i);
    forall x: nat
      ensures ByteAt(d2, x) == if dst <= x < dst + i + 1 then ByteAt(d, src + (x - dst)) else ByteAt(d, x)
    {
      assert ByteAt(d1, x) == if dst <= x < dst + i then ByteAt(d, src + (x - dst)) else ByteAt(d, x);
    }
  }

  /** The `n` bytes from `p` are found again from `q`. */
  ghost predicate PrefixKept(d: Bytes, p: nat, d': Bytes, q: nat, n: int) {
    forall x: nat :: p <= x < p + n && x in d ==> q + (x - p) in d' && d'[q + (x - p)] == d[x]
  }

  lemma PayloadIn(bs: seq<Block>, b: Block, x: nat)
    requires b in bs && b.kind == Used && b.addr + NODE_S <= x < b.End()
    ensures Payload(bs, x)
  {
    var k :| 0 <= k < |bs| && bs[k] == b;
    assert PayloadOf(bs, k, x);
  }

  /** Every payload byte outside the block whose payload starts at `p` keeps its value. */
  ghost predicate OthersIntact(bs: seq<Block>, p: nat, d: Bytes, d': Bytes) {
    forall k: nat, x: nat :: PayloadOf(bs, k, x) && bs[k].addr + NODE_S != p && x in d ==> x in d' && d'[x] == d[x]
  }
}
