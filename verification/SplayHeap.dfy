/** How the nodes in memory stand for the trees that a splay has in hand. */
module SplayHeap {
  import opened TreeKeys
  import opened SplayShape

  /** The SPLAY_ENTRY of a node, with the key that the caller's comparison reads. */
  datatype Rec = Rec(left: Ref, right: Ref, key: int)

  type Nodes = map<Ref, Rec>

  ghost function IdSet(s: seq<Elem>): set<Ref> { set e <- s :: e.id }

  ghost predicate Repr(h: Nodes, t: Tree) {
    t.Node? ==>
      && t.e.id != NULL && t.e.id in h && h[t.e.id] == Rec(IdOf(t.left), IdOf(t.right), t.e.key)
      && Repr(h, t.left) && Repr(h, t.right)
  }

  /** The left tree hangs from the right link of `n`; its open link holds `child`. */
  ghost predicate ReprLeft(h: Nodes, n: Ref, l: Lefts, child: Ref) {
    match l
    case NoLeft => n in h && h[n].right == child
    case LinkLeft(init, lt, e) =>
      && e.id != NULL && e.id in h && h[e.id] == Rec(IdOf(lt), child, e.key)
      && Repr(h, lt) && ReprLeft(h, n, init, e.id)
  }

  /** The right tree hangs from the left link of `n`. */
  ghost predicate ReprRight(h: Nodes, n: Ref, r: Rights, child: Ref) {
    match r
    case NoRight => n in h && h[n].left == child
    case LinkRight(init, e, rt) =>
      && e.id != NULL && e.id in h && h[e.id] == Rec(child, IdOf(rt), e.key)
      && Repr(h, rt) && ReprRight(h, n, init, e.id)
  }

  function LeftEnd(n: Ref, l: Lefts): Ref { if l.NoLeft? then n else l.e.id }

  function RightEnd(n: Ref, r: Rights): Ref { if r.NoRight? then n else r.e.id }

  /** Between two turns of the splay loop. */
  ghost predicate InHand(h: Nodes, n: Ref, root: Ref, left: Ref, right: Ref, l: Lefts, t: Tree, r: Rights) {
    && NULL !in h && n in h && left in h && right in h
    && Repr(h, t) && root == IdOf(t) && left == LeftEnd(n, l) && right == RightEnd(n, r)
    && ReprLeft(h, n, l, h[left].right) && ReprRight(h, n, r, h[right].left)
    && DistinctIds(Spread(l, t, r)) && n !in IdSet(Spread(l, t, r))
  }

  // ------------------------------------------------------------- disjointness

  lemma Disjoint3(a: seq<Elem>, b: seq<Elem>, c: seq<Elem>)
    requires DistinctIds(a + b + c)
    ensures DistinctIds(a) && DistinctIds(b) && DistinctIds(c)
    ensures IdSet(a) !! IdSet(b) && IdSet(a) !! IdSet(c) && IdSet(b) !! IdSet(c)
    ensures IdSet(a + b + c) == IdSet(a) + IdSet(b) + IdSet(c)
  {
    var s := a + b + c;
    assert forall i | 0 <= i < |a| :: s[i] == a[i];
    assert forall i | 0 <= i < |b| :: s[|a| + i] == b[i];
    assert forall i | 0 <= i < |c| :: s[|a| + |b| + i] == c[i];
  }

  /** The ids of a node and its two subtrees. */
  lemma NodeIds(t: Tree)
    requires t.Node? && DistinctIds(InOrder(t))
    ensures DistinctIds(InOrder(t.left)) && DistinctIds(InOrder(t.right))
    ensures IdSet(InOrder(t)) == IdSet(InOrder(t.left)) + {t.e.id} + IdSet(InOrder(t.right))
    ensures IdSet(InOrder(t.left)) !! IdSet(InOrder(t.right))
    ensures t.e.id !in IdSet(InOrder(t.left)) && t.e.id !in IdSet(InOrder(t.right))
  {
    Disjoint3(InOrder(t.left), [t.e], InOrder(t.right));
    assert IdSet([t.e]) == {t.e.id} by { assert t.e in [t.e]; }
  }

  lemma LeftIds(l: Lefts)
    requires l.LinkLeft? && DistinctIds(LeftOrder(l))
    ensures DistinctIds(LeftOrder(l.init)) && DistinctIds(InOrder(l.lt))
    ensures IdSet(LeftOrder(l)) == IdSet(LeftOrder(l.init)) + IdSet(InOrder(l.lt)) + {l.e.id}
    ensures l.e.id !in IdSet(LeftOrder(l.init)) && l.e.id !in IdSet(InOrder(l.lt))
  {
    Disjoint3(LeftOrder(l.init), InOrder(l.lt), [l.e]);
    assert IdSet([l.e]) == {l.e.id} by { assert l.e in [l.e]; }
  }

  lemma RightIds(r: Rights)
    requires r.LinkRight? && DistinctIds(RightOrder(r))
    ensures DistinctIds(RightOrder(r.init)) && DistinctIds(InOrder(r.rt))
    ensures IdSet(RightOrder(r)) == {r.e.id} + IdSet(InOrder(r.rt)) + IdSet(RightOrder(r.init))
    ensures r.e.id !in IdSet(RightOrder(r.init)) && r.e.id !in IdSet(InOrder(r.rt))
  {
    Disjoint3([r.e], InOrder(r.rt), RightOrder(r.init));
    assert IdSet([r.e]) == {r.e.id} by { assert r.e in [r.e]; }
  }

  // -------------------------------------------------------------- frame lemmas

  ghost predicate Same(h: Nodes, h': Nodes, ids: set<Ref>) {
    forall i <- ids :: i in h ==> i in h' && h'[i] == h[i]
  }

  lemma {:induction false} ReprFrame(h: Nodes, h': Nodes, t: Tree)
    requires Repr(h, t) && DistinctIds(InOrder(t)) && Same(h, h', IdSet(InOrder(t)))
    ensures Repr(h', t)
  {
    if t.Node? {
      NodeIds(t);
      ReprFrame(h, h', t.left);
      ReprFrame(h, h', t.right);
    }
  }

  lemma {:induction false} LeftFrame(h: Nodes, h': Nodes, n: Ref, l: Lefts, child: Ref)
    requires ReprLeft(h, n, l, child) && DistinctIds(LeftOrder(l)) && Same(h, h', IdSet(LeftOrder(l)))
    requires n in h && n in h' && h'[n].right == h[n].right
    ensures ReprLeft(h', n, l, child)
  {
    if l.LinkLeft? {
      LeftIds(l);
      ReprFrame(h, h', l.lt);
      LeftFrame(h, h', n, l.init, l.e.id);
    }
  }

  lemma {:induction false} RightFrame(h: Nodes, h': Nodes, n: Ref, r: Rights, child: Ref)
    requires ReprRight(h, n, r, child) && DistinctIds(RightOrder(r)) && Same(h, h', IdSet(RightOrder(r)))
    requires n in h && n in h' && h'[n].left == h[n].left
    ensures ReprRight(h', n, r, child)
  {
    if r.LinkRight? {
      RightIds(r);
      ReprFrame(h, h', r.rt);
      RightFrame(h, h', n, r.init, r.e.id);
    }
  }

  /** Writing the open link of the left tree. */
  lemma FillLeft(h: Nodes, h': Nodes, n: Ref, l: Lefts, was: Ref, child: Ref)
    requires ReprLeft(h, n, l, was) && DistinctIds(LeftOrder(l)) && n in h && n !in IdSet(LeftOrder(l))
    requires var end := LeftEnd(n, l);
             end in h && end in h' && h'[end] == h[end].(right := child) && Same(h, h', IdSet(LeftOrder(l)) - {end})
    requires n in h' && (l.LinkLeft? ==> h'[n].right == h[n].right)
    ensures ReprLeft(h', n, l, child)
  {
    if l.LinkLeft? {
      LeftIds(l);
      ReprFrame(h, h', l.lt);
      LeftFrame(h, h', n, l.init, l.e.id);
    }
  }

  lemma FillRight(h: Nodes, h': Nodes, n: Ref, r: Rights, was: Ref, child: Ref)
    requires ReprRight(h, n, r, was) && DistinctIds(RightOrder(r)) && n in h && n !in IdSet(RightOrder(r))
    requires var end := RightEnd(n, r);
             end in h && end in h' && h'[end] == h[end].(left := child) && Same(h, h', IdSet(RightOrder(r)) - {end})
    requires n in h' && (r.LinkRight? ==> h'[n].left == h[n].left)
    ensures ReprRight(h', n, r, child)
  {
    if r.LinkRight? {
      RightIds(r);
      ReprFrame(h, h', r.rt);
      RightFrame(h, h', n, r.init, r.e.id);
    }
  }

  // ---------------------------------------------------------- closing the trees

  lemma {:induction false} CloseLeftRepr(h: Nodes, n: Ref, l: Lefts, t: Tree)
    requires ReprLeft(h, n, l, IdOf(t)) && Repr(h, t) && n in h
    ensures Repr(h, CloseLeft(l, t)) && h[n].right == IdOf(CloseLeft(l, t))
    decreases l
  {
    if l.LinkLeft? { CloseLeftRepr(h, n, l.init, Node(l.lt, l.e, t)); }
  }

  lemma {:induction false} CloseRightRepr(h: Nodes, n: Ref, r: Rights, t: Tree)
    requires ReprRight(h, n, r, IdOf(t)) && Repr(h, t) && n in h
    ensures Repr(h, CloseRight(r, t)) && h[n].left == IdOf(CloseRight(r, t))
    decreases r
  {
    if r.LinkRight? { CloseRightRepr(h, n, r.init, Node(t, r.e, r.rt)); }
  }

  // ------------------------------------------------------------ the steps

  /** The two ends, the root and the three trees are different nodes. */
  lemma Parts(h: Nodes, n: Ref, root: Ref, left: Ref, right: Ref, l: Lefts, t: Tree, r: Rights)
    requires InHand(h, n, root, left, right, l, t, r)
    ensures DistinctIds(LeftOrder(l)) && DistinctIds(InOrder(t)) && DistinctIds(RightOrder(r))
    ensures IdSet(LeftOrder(l)) !! IdSet(InOrder(t)) && IdSet(LeftOrder(l)) !! IdSet(RightOrder(r))
    ensures IdSet(InOrder(t)) !! IdSet(RightOrder(r))
    ensures n !in IdSet(LeftOrder(l)) && n !in IdSet(InOrder(t)) && n !in IdSet(RightOrder(r))
    ensures left == n || left in IdSet(LeftOrder(l))
    ensures right == n || right in IdSet(RightOrder(r))
    ensures left !in IdSet(InOrder(t)) && left !in IdSet(RightOrder(r))
    ensures right !in IdSet(InOrder(t)) && right !in IdSet(LeftOrder(l))
  {
    Disjoint3(LeftOrder(l), InOrder(t), RightOrder(r));
    if l.LinkLeft? { LeftIds(l); }
    if r.LinkRight? { RightIds(r); }
  }

  /** Changes within the middle tree leave the side trees alone. */
  lemma SidesFrame(h: Nodes, h': Nodes, n: Ref, root: Ref, left: Ref, right: Ref, l: Lefts, t: Tree, r: Rights)
    requires InHand(h, n, root, left, right, l, t, r) && h.Keys == h'.Keys
    requires Same(h, h', h.Keys - IdSet(InOrder(t)))
    ensures ReprLeft(h', n, l, h'[left].right) && ReprRight(h', n, r, h'[right].left)
  {
    Parts(h, n, root, left, right, l, t, r);
    LeftFrame(h, h', n, l, h[left].right);
    RightFrame(h, h', n, r, h[right].left);
  }

  lemma RotateRightAt(h: Nodes, h': Nodes, n: Ref, root: Ref, left: Ref, right: Ref, l: Lefts, t: Tree, r: Rights)
    requires InHand(h, n, root, left, right, l, t, r) && t.Node? && t.left.Node?
    requires var y := t.left.e.id;
             root in h && y in h && h' == h[root := h[root].(left := h[y].right)][y := h[y].(right := root)]
    ensures InHand(h', n, t.left.e.id, left, right, l, RotatedRight(t), r)
  {
    Parts(h, n, root, left, right, l, t, r);
    NodeIds(t);
    NodeIds(t.left);
    RightKeepsOrder(t);
    SidesFrame(h, h', n, root, left, right, l, t, r);
    assert Repr(h, t.left);
    ReprFrame(h, h', t.left.left);
    ReprFrame(h, h', t.left.right);
    ReprFrame(h, h', t.right);
    assert Repr(h', RotatedRight(t).right);
  }

  lemma RotateLeftAt(h: Nodes, h': Nodes, n: Ref, root: Ref, left: Ref, right: Ref, l: Lefts, t: Tree, r: Rights)
    requires InHand(h, n, root, left, right, l, t, r) && t.Node? && t.right.Node?
    requires var y := t.right.e.id;
             root in h && y in h && h' == h[root := h[root].(right := h[y].left)][y := h[y].(left := root)]
    ensures InHand(h', n, t.right.e.id, left, right, l, RotatedLeft(t), r)
  {
    Parts(h, n, root, left, right, l, t, r);
    NodeIds(t);
    NodeIds(t.right);
    LeftKeepsOrder(t);
    SidesFrame(h, h', n, root, left, right, l, t, r);
    assert Repr(h, t.right);
    ReprFrame(h, h', t.right.left);
    ReprFrame(h, h', t.right.right);
    ReprFrame(h, h', t.left);
    assert Repr(h', RotatedLeft(t).left);
  }

  /** SPLAY_LINKLEFT: the root joins the right tree. */
  lemma LinkRightAt(h: Nodes, h': Nodes, n: Ref, root: Ref, left: Ref, right: Ref, l: Lefts, t: Tree, r: Rights)
    requires InHand(h, n, root, left, right, l, t, r) && t.Node?
    requires h' == h[right := h[right].(left := root)]
    ensures root in h' && InHand(h', n, h'[root].left, left, root, l, t.left, LinkRight(r, t.e, t.right))
  {
    Parts(h, n, root, left, right, l, t, r);
    NodeIds(t);
    LinkRightOrder(l, t, r);
    LeftFrame(h, h', n, l, h[left].right);
    FillRight(h, h', n, r, h[right].left, root);
    ReprFrame(h, h', t.left);
    ReprFrame(h, h', t.right);
  }

  lemma LinkLeftAt(h: Nodes, h': Nodes, n: Ref, root: Ref, left: Ref, right: Ref, l: Lefts, t: Tree, r: Rights)
    requires InHand(h, n, root, left, right, l, t, r) && t.Node?
    requires h' == h[left := h[left].(right := root)]
    ensures root in h' && InHand(h', n, h'[root].right, root, right, LinkLeft(l, t.left, t.e), t.right, r)
  {
    Parts(h, n, root, left, right, l, t, r);
    NodeIds(t);
    LinkLeftOrder(l, t, r);
    RightFrame(h, h', n, r, h[right].left);
    FillLeft(h, h', n, l, h[left].right, root);
    ReprFrame(h, h', t.left);
    ReprFrame(h, h', t.right);
  }

  /** The first two writes of SPLAY_ASSEMBLE close the side trees. */
  lemma ClosedAt(h: Nodes, h1: Nodes, h2: Nodes, n: Ref, root: Ref, left: Ref, right: Ref, l: Lefts, t: Tree, r: Rights)
    requires InHand(h, n, root, left, right, l, t, r) && t.Node? && root in h
    requires h1 == h[left := h[left].(right := h[root].left)] && right in h1
    requires h2 == h1[right := h1[right].(left := h[root].right)]
    ensures root in h2 && h2[root] == h[root] && n in h2
    ensures Repr(h2, CloseLeft(l, t.left)) && h2[n].right == IdOf(CloseLeft(l, t.left))
    ensures Repr(h2, CloseRight(r, t.right)) && h2[n].left == IdOf(CloseRight(r, t.right))
  {
    Parts(h, n, root, left, right, l, t, r);
    NodeIds(t);
    FillLeft(h, h1, n, l, h[left].right, h[root].left);
    LeftFrame(h1, h2, n, l, h[root].left);
    RightFrame(h, h1, n, r, h[right].left);
    FillRight(h1, h2, n, r, h[right].left, h[root].right);
    ReprFrame(h, h2, t.left);
    ReprFrame(h, h2, t.right);
    CloseLeftRepr(h2, n, l, t.left);
    CloseRightRepr(h2, n, r, t.right);
  }

  /** The last two put them under the root, and the stack node goes. */
  lemma TopAt(h: Nodes, h': Nodes, n: Ref, a: Tree, e: Elem, b: Tree)
    requires DistinctIds(InOrder(Node(a, e, b))) && n !in IdSet(InOrder(Node(a, e, b))) && n in h
    requires Repr(h, a) && h[n].right == IdOf(a) && Repr(h, b) && h[n].left == IdOf(b)
    requires e.id != NULL && e.id in h && h[e.id].key == e.key
    requires h' == h[e.id := h[e.id].(left := h[n].right, right := h[n].left)] - {n}
    ensures Repr(h', Node(a, e, b))
  {
    NodeIds(Node(a, e, b));
    ReprFrame(h, h', a);
    ReprFrame(h, h', b);
  }

  /** The same nodes, with the keys they had. */
  ghost predicate SameKeys(h: Nodes, h': Nodes) {
    h.Keys == h'.Keys && forall i <- h :: h'[i].key == h[i].key
  }

  /** ... and nothing but keys kept by the nodes `ids`; the others are as they were. */
  ghost predicate Within(h: Nodes, h': Nodes, ids: set<Ref>) {
    SameKeys(h, h') && Same(h, h', h.Keys - ids)
  }

  /** The nodes that a splay may write. */
  ghost function Reach(n: Ref, l: Lefts, t: Tree, r: Rights): set<Ref> {
    IdSet(Spread(l, t, r)) + {n}
  }

  /** The fields of the root of a tree, and its children. */
  lemma Held(h: Nodes, t: Tree)
    requires Repr(h, t) && t.Node?
    ensures t.e.id != NULL && t.e.id in h && h[t.e.id] == Rec(IdOf(t.left), IdOf(t.right), t.e.key)
    ensures t.left.Node? ==> t.left.e.id != NULL && t.left.e.id in h && h[t.left.e.id].key == t.left.e.key
    ensures t.right.Node? ==> t.right.e.id != NULL && t.right.e.id in h && h[t.right.e.id].key == t.right.e.key
  {
    assert Repr(h, t.left) && Repr(h, t.right);
  }

  lemma RootApart(h: Nodes, n: Ref, root: Ref, left: Ref, right: Ref, l: Lefts, t: Tree, r: Rights)
    requires InHand(h, n, root, left, right, l, t, r) && t.Node?
    ensures root in h && root != NULL && root != n && root != left && root != right
    ensures h[root] == Rec(IdOf(t.left), IdOf(t.right), t.e.key)
    ensures t.left.Node? ==> IdOf(t.left) in h && IdOf(t.left) != root && h[IdOf(t.left)].key == t.left.e.key
    ensures t.right.Node? ==> IdOf(t.right) in h && IdOf(t.right) != root && h[IdOf(t.right)].key == t.right.e.key
    ensures (t.left.Leaf? <==> IdOf(t.left) == NULL) && (t.right.Leaf? <==> IdOf(t.right) == NULL)
    ensures {root, left, right} <= Reach(n, l, t, r)
    ensures t.left.Node? ==> IdOf(t.left) in Reach(n, l, t, r)
    ensures t.right.Node? ==> IdOf(t.right) in Reach(n, l, t, r)
  {
    Disjoint3(LeftOrder(l), InOrder(t), RightOrder(r));
    Parts(h, n, root, left, right, l, t, r);
    Held(h, t);
    NodeIds(t);
    if t.left.Node? { NodeIds(t.left); }
    if t.right.Node? { NodeIds(t.right); }
  }

  /** All of SPLAY_ASSEMBLE, write by write. */
  ghost predicate AssembledBy(h: Nodes, h': Nodes, n: Ref, root: Ref, left: Ref, right: Ref) {
    && root in h && n in h && left in h && right in h
    && var h1 := h[left := h[left].(right := h[root].left)];
       var h2 := h1[right := h1[right].(left := h[root].right)];
       h' == h2[root := h2[root].(left := h2[n].right, right := h2[n].left)] - {n}
  }

  lemma AssembledAt(h: Nodes, h': Nodes, n: Ref, root: Ref, left: Ref, right: Ref, l: Lefts, t: Tree, r: Rights)
    requires InHand(h, n, root, left, right, l, t, r) && t.Node? && AssembledBy(h, h', n, root, left, right)
    ensures Repr(h', Assembled(l, t, r)) && InOrder(Assembled(l, t, r)) == Spread(l, t, r)
  {
    var h1 := h[left := h[left].(right := h[root].left)];
    var h2 := h1[right := h1[right].(left := h[root].right)];
    ClosedAt(h, h1, h2, n, root, left, right, l, t, r);
    AssembledOrder(l, t, r);
    Held(h, t);
    TopAt(h2, h', n, CloseLeft(l, t.left), t.e, CloseRight(r, t.right));
  }

  lemma AssembledKeys(h: Nodes, h': Nodes, n: Ref, root: Ref, left: Ref, right: Ref)
    requires AssembledBy(h, h', n, root, left, right)
    ensures h'.Keys == h.Keys - {n} && forall i <- h' :: h'[i].key == h[i].key
    ensures Same(h, h', h.Keys - {n, root, left, right})
  {
  }

  /** With the local node in place, the whole tree is in hand. */
  lemma StartInHand(h: Nodes, n: Ref, root: Ref, t: Tree)
    requires NULL !in h && n != NULL && n !in h && Repr(h, t) && root == IdOf(t) && DistinctIds(InOrder(t))
    ensures InHand(h[n := Rec(NULL, NULL, 0)], n, root, n, n, NoLeft, t, NoRight)
    ensures Spread(NoLeft, t, NoRight) == InOrder(t)
  {
    ReprKeys(h, t);
    ReprFrame(h, h[n := Rec(NULL, NULL, 0)], t);
    assert Spread(NoLeft, t, NoRight) == InOrder(t);
  }

  lemma {:induction false} ReprKeys(h: Nodes, t: Tree)
    requires Repr(h, t)
    ensures forall e <- InOrder(t) :: e.id != NULL && e.id in h && h[e.id].key == e.key
  {
    if t.Node? {
      ReprKeys(h, t.left);
      ReprKeys(h, t.right);
    }
  }

  lemma WithinTwice(h: Nodes, h1: Nodes, h2: Nodes, ids: set<Ref>)
    requires Within(h, h1, ids) && Within(h1, h2, ids)
    ensures Within(h, h2, ids)
  {
  }

  /** The local node has come and gone. */
  lemma WithinTree(h: Nodes, h1: Nodes, h2: Nodes, n: Ref, ids: set<Ref>)
    requires n !in h && Within(h[n := Rec(NULL, NULL, 0)], h1, ids + {n})
    requires h2.Keys == h1.Keys - {n} && forall i <- h2 :: h2[i].key == h1[i].key
    requires Same(h1, h2, h1.Keys - (ids + {n}))
    ensures Within(h, h2, ids)
  {
    assert forall i <- h :: i in h[n := Rec(NULL, NULL, 0)];
  }

  // ------------------------------------------------------- a new node at the top

  /** `x` takes the left subtree of the root, and the root itself on its right. */
  function PutAbove(t: Tree, x: Elem): Tree
    requires t.Node?
  {
    Node(t.left, x, Node(Leaf, t.e, t.right))
  }

  function PutBelow(t: Tree, x: Elem): Tree
    requires t.Node?
  {
    Node(Node(t.left, t.e, Leaf), x, t.right)
  }

  lemma PutAboveAt(h: Nodes, h': Nodes, t: Tree, x: Ref)
    requires Repr(h, t) && t.Node? && DistinctIds(InOrder(t)) && x in h && x != NULL && x !in IdSet(InOrder(t))
    requires h' == h[x := Rec(h[t.e.id].left, t.e.id, h[x].key)][t.e.id := h[t.e.id].(left := NULL)]
    ensures Repr(h', PutAbove(t, Elem(x, h[x].key)))
  {
    NodeIds(t);
    ReprFrame(h, h', t.left);
    ReprFrame(h, h', t.right);
    assert Repr(h', Node(Leaf, t.e, t.right));
  }

  lemma PutBelowAt(h: Nodes, h': Nodes, t: Tree, x: Ref)
    requires Repr(h, t) && t.Node? && DistinctIds(InOrder(t)) && x in h && x != NULL && x !in IdSet(InOrder(t))
    requires h' == h[x := Rec(t.e.id, h[t.e.id].right, h[x].key)][t.e.id := h[t.e.id].(right := NULL)]
    ensures Repr(h', PutBelow(t, Elem(x, h[x].key)))
  {
    NodeIds(t);
    ReprFrame(h, h', t.left);
    ReprFrame(h, h', t.right);
    assert Repr(h', Node(t.left, t.e, Leaf));
  }

  lemma PutAboveOrder(t: Tree, x: Elem) returns (i: nat)
    requires RootedAt(t, x.key) && x.key < t.e.key && Ascending(InOrder(t))
    ensures i <= |InOrder(t)| && InOrder(PutAbove(t, x)) == With(InOrder(t), i, x)
    ensures Ascending(InOrder(PutAbove(t, x)))
  {
    i := |InOrder(t.left)|;
    Prefixed(InOrder(t.left), t.e, InOrder(t.right), x.key);
    assert InOrder(Node(Leaf, t.e, t.right)) == [t.e] + InOrder(t.right);
    WithAscending(InOrder(t.left), x, [t.e] + InOrder(t.right));
  }

  lemma PutBelowOrder(t: Tree, x: Elem) returns (i: nat)
    requires RootedAt(t, x.key) && x.key > t.e.key && Ascending(InOrder(t))
    ensures i <= |InOrder(t)| && InOrder(PutBelow(t, x)) == With(InOrder(t), i, x)
    ensures Ascending(InOrder(PutBelow(t, x)))
  {
    i := |InOrder(t.left)| + 1;
    var a, b := InOrder(t.left) + [t.e], InOrder(t.right);
    assert InOrder(t) == a + b;
    assert InOrder(Node(t.left, t.e, Leaf)) == a;
    WithAscending(a, x, b);
  }

  lemma AscendingDistinct(h: Nodes, t: Tree)
    requires Repr(h, t) && Ascending(InOrder(t))
    ensures DistinctIds(InOrder(t))
  {
    ReprKeys(h, t);
  }

  // ----------------------------------------------------------- the root removed

  /** The right subtree hung below the largest node of the left one. */
  lemma JoinedAt(h: Nodes, h': Nodes, t: Tree, right: Tree)
    requires Repr(h, t) && t.Node? && t.right.Leaf? && DistinctIds(InOrder(t) + InOrder(right)) && Repr(h, right)
    requires h' == h[t.e.id := h[t.e.id].(right := IdOf(right))]
    ensures Repr(h', Node(t.left, t.e, right)) && InOrder(Node(t.left, t.e, right)) == InOrder(t) + InOrder(right)
  {
    Disjoint3(InOrder(t), InOrder(right), []);
    assert InOrder(t) + InOrder(right) + [] == InOrder(t) + InOrder(right);
    NodeIds(t);
    ReprFrame(h, h', t.left);
    ReprFrame(h, h', right);
    assert InOrder(t) == InOrder(t.left) + [t.e];
  }

  /** A part of an ordered sequence. */
  lemma PartsOrdered(t: Tree)
    requires t.Node? && Ascending(InOrder(t))
    ensures Ascending(InOrder(t.left)) && Ascending(InOrder(t.right))
    ensures AllBelow(InOrder(t.left), t.e.key) && AllAbove(InOrder(t.right), t.e.key)
    ensures Without(InOrder(t), |InOrder(t.left)|) == InOrder(t.left) + InOrder(t.right)
    ensures Ascending(InOrder(t.left) + InOrder(t.right))
  {
    SplitAscending(InOrder(t.left), t.e, InOrder(t.right));
    WithoutAt(InOrder(t.left), t.e, InOrder(t.right));
    WithoutAscending(InOrder(t), |InOrder(t.left)|);
  }

  lemma RootInOrder(t: Tree)
    ensures t.Node? ==> t.e in InOrder(t)
  {
  }

  /** Splaying by a key above all brings the largest node to the root. */
  lemma LargestAtRoot(t: Tree, k: int)
    requires RootedAt(t, k) && AllBelow(InOrder(t), k)
    ensures t.right.Leaf?
  {
    RootInOrder(t.right);
    assert forall e <- InOrder(t.right) :: e in InOrder(t);
  }

  lemma DistinctTogether(a: seq<Elem>, b: seq<Elem>)
    requires DistinctIds(a) && DistinctIds(b) && IdSet(a) !! IdSet(b)
    ensures DistinctIds(a + b)
  {
    var s := a + b;
    forall i, j | 0 <= i < j < |s| ensures s[i].id != s[j].id {
      if i < |a| <= j {
        assert s[i] in a && s[j] in b;
        assert s[i].id in IdSet(a) && s[j].id in IdSet(b);
      }
    }
  }
}
