/** The circular intrusive list of include/sys/list.h: entries linked both ways
    through a head that is no element, against the sequence it stands for. */
module List {

  class Entry {
    var next: Entry
    var prev: Entry

    /** list_init. */
    constructor ()
      ensures next == this && prev == this
    {
      next, prev := this, this;
    }
  }

  /** The k-th node of the ring, counting the head at both ends. */
  ghost function NodeAt(l: Entry, s: seq<Entry>, k: nat): Entry
    requires k <= |s| + 1
  {
    if k == 0 || k == |s| + 1 then l else s[k - 1]
  }

  ghost predicate LinkAt(l: Entry, s: seq<Entry>, k: nat)
    requires k <= |s|
    reads l, s
  {
    NodeAt(l, s, k).next == NodeAt(l, s, k + 1) && NodeAt(l, s, k + 1).prev == NodeAt(l, s, k)
  }

  ghost predicate Distinct(l: Entry, s: seq<Entry>) {
    l !in s && forall i, j :: 0 <= i < j < |s| ==> s[i] != s[j]
  }

  /** The entries `s`, in order, behind the head `l`. */
  ghost predicate Ring(l: Entry, s: seq<Entry>)
    reads l, s
  {
    Distinct(l, s) && forall k: nat | k <= |s| :: LinkAt(l, s, k)
  }

  function With(s: seq<Entry>, k: nat, e: Entry): seq<Entry>
    requires k <= |s|
  {
    s[..k] + [e] + s[k..]
  }

  function Without(s: seq<Entry>, k: nat): seq<Entry>
    requires k < |s|
  {
    s[..k] + s[k + 1..]
  }

  lemma WithNodes(l: Entry, s: seq<Entry>, k: nat, e: Entry, j: nat)
    requires k <= |s| && j <= |s| + 2
    ensures NodeAt(l, With(s, k, e), j) ==
            if j <= k then NodeAt(l, s, j) else if j == k + 1 then e else NodeAt(l, s, j - 1)
  {
  }

  lemma WithoutNodes(l: Entry, s: seq<Entry>, k: nat, j: nat)
    requires k < |s| && j <= |s|
    ensures NodeAt(l, Without(s, k), j) == if j <= k then NodeAt(l, s, j) else NodeAt(l, s, j + 1)
  {
  }

  lemma WithDistinct(l: Entry, s: seq<Entry>, k: nat, e: Entry)
    requires Distinct(l, s) && k <= |s| && e != l && e !in s
    ensures Distinct(l, With(s, k, e))
  {
    var w := With(s, k, e);
    assert forall j | 0 <= j < |w| :: w[j] == if j < k then s[j] else if j == k then e else s[j - 1];
  }

  lemma WithoutDistinct(l: Entry, s: seq<Entry>, k: nat)
    requires Distinct(l, s) && k < |s|
    ensures Distinct(l, Without(s, k)) && s[k] !in Without(s, k)
  {
    var w := Without(s, k);
    assert forall j | 0 <= j < |w| :: w[j] == if j < k then s[j] else s[j + 1];
  }

  lemma OneNode(l: Entry, s: seq<Entry>, i: nat, j: nat)
    requires Distinct(l, s) && i < j <= |s|
    ensures NodeAt(l, s, i) != NodeAt(l, s, j)
  {
  }

  /** list_insert: `e` before the node `x`, which is the head for list_append. */
  method Insert(x: Entry, e: Entry, ghost l: Entry, ghost s: seq<Entry>, ghost k: nat)
    requires Ring(l, s) && k <= |s| && x == NodeAt(l, s, k + 1) && e != l && e !in s
    modifies l, s, e
    ensures Ring(l, With(s, k, e))
  {
    assert LinkAt(l, s, k);
    e.next := x;
    e.prev := x.prev;
    e.next.prev := e;
    e.prev.next := e;
    WithDistinct(l, s, k, e);
    ghost var w := With(s, k, e);
    forall j: nat | j <= |w| ensures LinkAt(l, w, j) {
      WithNodes(l, s, k, e, j);
      WithNodes(l, s, k, e, j + 1);
      if j < k { assert old(LinkAt(l, s, j)); OneNode(l, s, j, k); }
      if j > k + 1 { assert old(LinkAt(l, s, j - 1)); OneNode(l, s, k, j - 1); }
    }
  }

  /** list_append: `e` behind the last element. */
  method Append(l: Entry, e: Entry, ghost s: seq<Entry>)
    requires Ring(l, s) && e != l && e !in s
    modifies l, s, e
    ensures Ring(l, s + [e])
  {
    assert With(s, |s|, e) == s + [e];
    Insert(l, e, l, s, |s|);
  }

  /** list_prepend: `e` before the first element. */
  method Prepend(l: Entry, e: Entry, ghost s: seq<Entry>)
    requires Ring(l, s) && e != l && e !in s
    modifies l, s, e
    ensures Ring(l, [e] + s)
  {
    assert LinkAt(l, s, 0);
    e.next := l.next;
    e.prev := l;
    e.next.prev := e;
    e.prev.next := e;
    assert With(s, 0, e) == [e] + s;
    WithDistinct(l, s, 0, e);
    ghost var w := [e] + s;
    forall j: nat | j <= |w| ensures LinkAt(l, w, j) {
      WithNodes(l, s, 0, e, j);
      WithNodes(l, s, 0, e, j + 1);
      if j > 1 { assert old(LinkAt(l, s, j - 1)); OneNode(l, s, 0, j - 1); }
    }
  }

  /** list_remove: the entry leaves its ring and is a ring of its own. */
  method Remove(e: Entry, ghost l: Entry, ghost s: seq<Entry>, ghost k: nat)
    requires Ring(l, s) && k < |s| && s[k] == e
    modifies l, s
    ensures Ring(l, Without(s, k)) && e.next == e && e.prev == e
  {
    assert LinkAt(l, s, k) && LinkAt(l, s, k + 1);
    e.prev.next := e.next;
    e.next.prev := e.prev;
    e.next := e;
    e.prev := e;
    WithoutDistinct(l, s, k);
    ghost var w := Without(s, k);
    forall j: nat | j <= |w| ensures LinkAt(l, w, j) {
      WithoutNodes(l, s, k, j);
      WithoutNodes(l, s, k, j + 1);
      if j < k { assert old(LinkAt(l, s, j)); OneNode(l, s, j, k); }
      if j > k { assert old(LinkAt(l, s, j + 1)); OneNode(l, s, k, j + 1); }
    }
  }

  /** list_empty. */
  method Empty(l: Entry, ghost s: seq<Entry>) returns (r: bool)
    requires Ring(l, s)
    ensures r <==> s == []
  {
    assert LinkAt(l, s, 0);
    r := l.next == l;
  }
}
