/** The links of a list in shared memory, write by write: what each pointer write
    of list_append and list_remove, include/sys/list.h, makes of the ring. */
module FifoLinks {

  /** An entry, by its address. */
  type Ref = nat

  /** The entry inside the FIFO that heads its list. */
  const HEAD: Ref := 0

  datatype Links = Links(next: Ref, prev: Ref)

  type Memory = map<Ref, Links>

  function Next(m: Memory, r: Ref): Ref { if r in m then m[r].next else HEAD }

  function Prev(m: Memory, r: Ref): Ref { if r in m then m[r].prev else HEAD }

  function SetNext(m: Memory, r: Ref, x: Ref): Memory { m[r := Links(x, Prev(m, r))] }

  function SetPrev(m: Memory, r: Ref, x: Ref): Memory { m[r := Links(Next(m, r), x)] }

  /** The k-th node of the ring, counting the head at both ends. */
  function Node(list: seq<Ref>, k: nat): Ref
    requires k <= |list| + 1
  {
    if k == 0 || k == |list| + 1 then HEAD else list[k - 1]
  }

  ghost predicate NextAt(m: Memory, list: seq<Ref>, k: nat)
    requires k <= |list|
  {
    Next(m, Node(list, k)) == Node(list, k + 1)
  }

  ghost predicate PrevAt(m: Memory, list: seq<Ref>, k: nat)
    requires k <= |list|
  {
    Prev(m, Node(list, k + 1)) == Node(list, k)
  }

  ghost predicate Distinct(list: seq<Ref>) {
    HEAD !in list && forall i, j :: 0 <= i < j < |list| ==> list[i] != list[j]
  }

  /** The entries `list`, in order, behind the head. */
  ghost predicate Ring(m: Memory, list: seq<Ref>) {
    Distinct(list) && forall k: nat | k <= |list| :: NextAt(m, list, k) && PrevAt(m, list, k)
  }

  ghost predicate Loose(list: seq<Ref>, e: Ref) { e != HEAD && e !in list }

  /** `e` points at both ends of the ring. */
  ghost predicate Aimed(m: Memory, list: seq<Ref>, e: Ref) {
    Loose(list, e) && Next(m, e) == HEAD && Prev(m, e) == Node(list, |list|)
  }

  /** Before the last write of an append: backwards, the ring already holds `e`. */
  ghost predicate TiedBack(m: Memory, list: seq<Ref>, e: Ref) {
    && Distinct(list) && Aimed(m, list, e) && Prev(m, HEAD) == e
    && (forall k: nat | k <= |list| :: NextAt(m, list, k))
    && (forall k: nat | k < |list| :: PrevAt(m, list, k))
  }

  /** After the first write of a removal: forwards, the ring skips its first entry. */
  ghost predicate Skipped(m: Memory, list: seq<Ref>) {
    && Distinct(list) && list != [] && Next(m, HEAD) == Node(list, 2)
    && (forall k: nat | 0 < k <= |list| :: NextAt(m, list, k))
    && (forall k: nat | k <= |list| :: PrevAt(m, list, k))
  }

  lemma OneNode(list: seq<Ref>, i: nat, j: nat)
    requires Distinct(list) && i < j <= |list|
    ensures Node(list, i) != Node(list, j)
  {
  }

  lemma EmptyRing(m: Memory)
    requires Next(m, HEAD) == Prev(m, HEAD) == HEAD
    ensures Ring(m, [])
  {
  }

  /** A write to an entry outside the list. */
  lemma WriteLoose(m: Memory, list: seq<Ref>, e: Ref, x: Ref)
    requires Ring(m, list) && Loose(list, e)
    ensures Ring(SetNext(m, e, x), list) && Ring(SetPrev(m, e, x), list)
  {
    forall k: nat | k <= |list|
      ensures NextAt(SetNext(m, e, x), list, k) && PrevAt(SetNext(m, e, x), list, k)
      ensures NextAt(SetPrev(m, e, x), list, k) && PrevAt(SetPrev(m, e, x), list, k)
    {
      assert NextAt(m, list, k) && PrevAt(m, list, k);
      assert Node(list, k) != e && Node(list, k + 1) != e;
    }
  }

  /** The third write of list_append. */
  lemma TieBack(m: Memory, list: seq<Ref>, e: Ref)
    requires Ring(m, list) && Aimed(m, list, e)
    ensures TiedBack(SetPrev(m, Next(m, e), e), list, e)
  {
    var m' := SetPrev(m, HEAD, e);
    forall k: nat | k <= |list| ensures NextAt(m', list, k) { assert NextAt(m, list, k); }
    forall k: nat | k < |list| ensures PrevAt(m', list, k) { assert PrevAt(m, list, k); }
  }

  /** The fourth: the entry is the last of the ring. */
  lemma TieFront(m: Memory, list: seq<Ref>, e: Ref)
    requires TiedBack(m, list, e)
    ensures Ring(SetNext(m, Prev(m, e), e), list + [e])
  {
    var n, list' := |list|, list + [e];
    var m' := SetNext(m, Node(list, n), e);
    forall k: nat | k <= n + 1 ensures NextAt(m', list', k) && PrevAt(m', list', k) {
      if k < n {
        assert NextAt(m, list, k) && PrevAt(m, list, k);
        OneNode(list, k, n);
        assert Node(list', k) == Node(list, k) && Node(list', k + 1) == Node(list, k + 1);
      } else {
        assert Node(list', n) == Node(list, n) && Node(list', n + 1) == e && Node(list', n + 2) == HEAD;
      }
    }
  }

  /** The first write of list_remove, on the first entry. */
  lemma UntieFront(m: Memory, list: seq<Ref>)
    requires Ring(m, list) && list != []
    ensures Skipped(SetNext(m, Prev(m, list[0]), Next(m, list[0])), list)
  {
    assert PrevAt(m, list, 0) && NextAt(m, list, 1);
    var m' := SetNext(m, HEAD, Node(list, 2));
    forall k: nat | 0 < k <= |list| ensures NextAt(m', list, k) { assert NextAt(m, list, k); }
    forall k: nat | k <= |list| ensures PrevAt(m', list, k) { assert PrevAt(m, list, k); }
  }

  /** The second: the rest is a ring. */
  lemma UntieBack(m: Memory, list: seq<Ref>)
    requires Skipped(m, list)
    ensures Ring(SetPrev(m, Next(m, list[0]), Prev(m, list[0])), list[1..]) && Loose(list[1..], list[0])
  {
    assert PrevAt(m, list, 0) && NextAt(m, list, 1);
    var rest := list[1..];
    var m' := SetPrev(m, Node(list, 2), HEAD);
    forall k: nat | k <= |rest| ensures NextAt(m', rest, k) && PrevAt(m', rest, k) {
      assert Node(rest, k + 1) == Node(list, k + 2);
      if k > 0 {
        assert NextAt(m, list, k + 1) && PrevAt(m, list, k + 1);
        assert Node(rest, k) == Node(list, k + 1);
        assert Node(list, k + 2) != Node(list, 2);
      }
    }
  }
}
