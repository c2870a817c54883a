/** Searching an ordered tree from the root: what lies left and right of the way. */
module RbOrder {
  import opened TreeKeys
  import opened RbShape
  import opened RbHeap
  import opened RbEdit

  /** A node with key `k` can only be in the subtree at this place. */
  predicate Between(p: Path, k: int) {
    AllBelow(Before(p), k) && AllAbove(After(p), k)
  }

  lemma PlaceOrder(t: Tree, p: Path)
    requires t.Node?
    ensures InOrder(Plug(p, t)) == (Before(p) + InOrder(t.left)) + [t.e] + (InOrder(t.right) + After(p))
  {
    PlugOrder(p, t);
    Flattened(Before(p), InOrder(t.left), t.e, InOrder(t.right), After(p));
  }

  lemma GoLeft(t: Tree, p: Path, k: int)
    requires t.Node? && Ascending(InOrder(Plug(p, t))) && Between(p, k) && k < t.e.key
    ensures Between(InLeft(p, t.e, t.red, t.right), k)
  {
    PlaceOrder(t, p);
    SplitAscending(Before(p) + InOrder(t.left), t.e, InOrder(t.right) + After(p));
  }

  lemma GoRight(t: Tree, p: Path, k: int)
    requires t.Node? && Ascending(InOrder(Plug(p, t))) && Between(p, k) && t.e.key < k
    ensures Between(InRight(p, t.left, t.e, t.red), k)
  {
    PlaceOrder(t, p);
    SplitAscending(Before(p) + InOrder(t.left), t.e, InOrder(t.right) + After(p));
  }

  /** The way down has ended without meeting the key. */
  lemma NotThere(p: Path, k: int)
    requires Between(p, k)
    ensures InOrder(Plug(p, Leaf)) == Before(p) + After(p) && !HasKey(Before(p) + After(p), k)
  {
    PlugOrder(p, Leaf);
    assert Before(p) + [] + After(p) == Before(p) + After(p);
  }

  /** The new node sits between what is smaller and what is larger. */
  lemma NewNode(p: Path, x: Elem)
    requires Between(p, x.key) && Ascending(Before(p) + After(p))
    ensures InOrder(Plug(p, Node(Leaf, x, true, Leaf))) == Before(p) + [x] + After(p)
    ensures Ascending(Before(p) + [x] + After(p))
  {
    PlugOrder(p, Node(Leaf, x, true, Leaf));
    assert InOrder(Node(Leaf, x, true, Leaf)) == [x];
    WithAscending(Before(p), x, After(p));
  }

  /** Taking out a node with at most one child takes out one element. */
  lemma OnlyChildOrder(t: Tree, c: Tree, p: Path)
    requires OnlyChild(t, c)
    ensures InOrder(Plug(p, t)) == (Before(p) + InOrder(t.left)) + [t.e] + (InOrder(t.right) + After(p))
    ensures InOrder(Plug(p, c)) == (Before(p) + InOrder(t.left)) + (InOrder(t.right) + After(p))
  {
    PlaceOrder(t, p);
    PlugOrder(p, c);
    NothingBetween(Before(p), InOrder(c), After(p));
  }

  lemma NothingBetween(a: seq<Elem>, b: seq<Elem>, c: seq<Elem>)
    ensures (a + []) + (b + c) == a + b + c && (a + b) + ([] + c) == a + b + c
  {
  }

  /** A path that only goes left has nothing before it. */
  predicate AllLeft(q: Path) { q.Top? || (q.InLeft? && AllLeft(q.up)) }

  lemma {:induction false} AllLeftBefore(q: Path)
    requires AllLeft(q)
    ensures Before(q) == []
  {
    if !q.Top? { AllLeftBefore(q.up); }
  }

  /** The successor comes first in the right subtree, and leaves the rest as it was. */
  lemma LeftmostOrder(q: Path, s: Elem, sred: bool, c: Tree)
    requires AllLeft(q)
    ensures InOrder(Plug(q, Node(Leaf, s, sred, c))) == [s] + InOrder(Plug(q, c))
  {
    AllLeftBefore(q);
    PlugOrder(q, Node(Leaf, s, sred, c));
    PlugOrder(q, c);
    FirstOut(s, InOrder(c), After(q));
  }

  lemma FirstOut(x: Elem, b: seq<Elem>, c: seq<Elem>)
    ensures [] + ([] + [x] + b) + c == [x] + ([] + b + c)
  {
  }

  lemma Moved(a: seq<Elem>, x: Elem, b: seq<Elem>, c: seq<Elem>)
    ensures a + [x] + (b + c) == a + (([x] + b) + c)
  {
  }

  /** The successor in the place of the node: one element less. */
  lemma SuccessorOrder(p: Path, l: Tree, e: Elem, red: bool, q: Path, s: Elem, sred: bool, c: Tree)
    returns (a: seq<Elem>, b: seq<Elem>)
    requires AllLeft(q)
    ensures InOrder(Plug(p, Node(l, e, red, Plug(q, Node(Leaf, s, sred, c))))) == a + [e] + b
    ensures InOrder(Plug(p, Node(l, s, red, Plug(q, c)))) == a + b
  {
    var r, r' := Plug(q, Node(Leaf, s, sred, c)), Plug(q, c);
    a, b := Before(p) + InOrder(l), InOrder(r) + After(p);
    LeftmostOrder(q, s, sred, c);
    PlaceOrder(Node(l, e, red, r), p);
    PlaceOrder(Node(l, s, red, r'), p);
    Moved(a, s, InOrder(r'), After(p));
  }

  /** The removed node is no longer in the tree. */
  lemma GoneFrom(t: Tree, t': Tree, i: nat)
    requires Apart(t) && i < |InOrder(t)| && InOrder(t') == Without(InOrder(t), i)
    ensures InOrder(t)[i].id !in Ids(t')
  {
    OrderDistinct(t);
    WithoutId(InOrder(t), i);
    OrderIds(t', InOrder(t)[i].id);
  }

  /** The end of what is below `k`. */
  lemma FirstNotBelow(a: seq<Elem>, b: seq<Elem>, k: int, s: seq<Elem>) returns (i: nat)
    requires s == a + b && Ascending(s) && AllBelow(a, k) && (b == [] || b[0].key >= k)
    ensures i == |a| && s[i..] == b
    ensures forall j | 0 <= j < |s| :: s[j].key < k <==> j < i
  {
    i := |a|;
    if b != [] { assert s[i] == b[0]; }
    assert forall j | 0 <= j < |a| :: s[j] == a[j];
  }

  lemma FirstOf(t: Tree)
    requires t.Node?
    ensures InOrder(t) != []
    ensures FirstId(InOrder(t)) == if t.left.Leaf? then t.e.id else FirstId(InOrder(t.left))
  {
    if t.left.Node? { assert InOrder(t.left) != []; }
  }

  lemma LastOf(t: Tree)
    requires t.Node?
    ensures InOrder(t) != []
    ensures LastId(InOrder(t)) == if t.right.Leaf? then t.e.id else LastId(InOrder(t.right))
  {
    if t.right.Node? { assert InOrder(t.right) != []; }
  }

  lemma FirstIn(a: seq<Elem>, x: Elem, b: seq<Elem>, s: seq<Elem>)
    requires s == a + [x] + b && Ascending(s)
    ensures FirstId(s[|a|..]) == x.id
    ensures forall j | 0 <= j < |s| :: s[j].key < x.key <==> j < |a|
  {
    assert s[|a|] == x;
  }

  /** The same when the key was met. */
  lemma FirstAt(t: Tree, p: Path) returns (i: nat)
    requires t.Node? && Ascending(InOrder(Plug(p, t)))
    ensures i <= |InOrder(Plug(p, t))| && FirstId(InOrder(Plug(p, t))[i..]) == t.e.id
    ensures forall j | 0 <= j < |InOrder(Plug(p, t))| :: InOrder(Plug(p, t))[j].key < t.e.key <==> j < i
  {
    PlaceOrder(t, p);
    FirstIn(Before(p) + InOrder(t.left), t.e, InOrder(t.right) + After(p), InOrder(Plug(p, t)));
    i := |Before(p) + InOrder(t.left)|;
  }

  // ------------------------------------------------------- one key out of order

  /** The elements other than `x` are in order. */
  ghost predicate OthersAscend(s: seq<Elem>, x: Ref) {
    forall i | 0 <= i < |s| && s[i].id == x :: Ascending(Without(s, i))
  }

  lemma OthersOrder(s: seq<Elem>, i: nat, j: nat, k: nat)
    requires i < |s| && Ascending(Without(s, i)) && j < k < |s| && j != i && k != i
    ensures s[j].key < s[k].key
  {
    var w := Without(s, i);
    var j', k' := if j < i then j else j - 1, if k < i then k else k - 1;
    assert w[j'] == s[j] && w[k'] == s[k];
  }

  /** In order with its neighbours is in order with all. */
  lemma NeighboursOrder(s: seq<Elem>, i: nat)
    requires i < |s| && Ascending(Without(s, i))
    requires i > 0 ==> s[i - 1].key < s[i].key
    requires i + 1 < |s| ==> s[i].key < s[i + 1].key
    ensures Ascending(s)
  {
    forall j, k | 0 <= j < k < |s| ensures s[j].key < s[k].key {
      if j == i {
        if k > i + 1 { OthersOrder(s, i, i + 1, k); }
      } else if k == i {
        if j < i - 1 { OthersOrder(s, i, j, i - 1); }
      } else {
        OthersOrder(s, i, j, k);
      }
    }
  }

  lemma {:induction false} KeysInMemory(h: Nodes, t: Tree, parent: Ref, e: Elem)
    requires Repr(h, t, parent) && e in InOrder(t)
    ensures e.id != NULL && e.id in h && h[e.id].key == e.key
  {
    if e in InOrder(t.left) {
      KeysInMemory(h, t.left, t.e.id, e);
    } else if e in InOrder(t.right) {
      KeysInMemory(h, t.right, t.e.id, e);
    }
  }

  /** A node whose key is not in the tree is not in it. */
  lemma KeylessOutside(h: Nodes, t: Tree, id: Ref)
    requires Repr(h, t, NULL) && id in h && !HasKey(InOrder(t), h[id].key)
    ensures id !in Ids(t)
  {
    if id in Ids(t) {
      OrderIds(t, id);
      var e :| e in InOrder(t) && e.id == id;
      KeysInMemory(h, t, NULL, e);
    }
  }

  /** What the two neighbours tell. */
  lemma Neighbours(h: Nodes, t: Tree, i: nat, before: Ref, after: Ref)
    requires Repr(h, t, NULL) && i < |InOrder(t)|
    requires before == LastId(InOrder(t)[..i]) && after == FirstId(InOrder(t)[i + 1..])
    ensures var s := InOrder(t);
            && s[i].id in h && h[s[i].id].key == s[i].key
            && (before == NULL <==> i == 0) && (after == NULL <==> i + 1 == |s|)
            && (before != NULL ==> before in h && h[before].key == s[i - 1].key)
            && (after != NULL ==> after in h && h[after].key == s[i + 1].key)
  {
    var s := InOrder(t);
    KeysInMemory(h, t, NULL, s[i]);
    if i > 0 { KeysInMemory(h, t, NULL, s[i - 1]); }
    if i + 1 < |s| { KeysInMemory(h, t, NULL, s[i + 1]); }
  }
}
