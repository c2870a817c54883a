/** Memory facts behind hanging a node into a tree and taking one out. */
module RbEdit {
  import opened TreeKeys
  import opened RbShape
  import opened RbHeap
  import opened RbBalance

  // ------------------------------------------------------------------ places

  lemma {:induction false} PlugIds(p: Path, t: Tree)
    ensures Ids(Plug(p, t)) == PathIds(p) + Ids(t)
    decreases p
  {
    if !p.Top? { PlugIds(p.up, Join(p, t)); }
  }

  lemma {:induction false} OrderIds(t: Tree, id: Ref)
    ensures id in Ids(t) <==> exists e <- InOrder(t) :: e.id == id
  {
    if t.Node? {
      OrderIds(t.left, id);
      OrderIds(t.right, id);
      assert forall e :: e in InOrder(t) <==> e in InOrder(t.left) || e == t.e || e in InOrder(t.right);
    }
  }

  /** Every node of a tree has a place in it. */
  lemma {:induction false} Locate(t: Tree, p: Path, id: Ref) returns (s: Tree, q: Path)
    requires id in Ids(t)
    ensures Plug(q, s) == Plug(p, t) && s.Node? && s.e.id == id
  {
    if t.e.id == id {
      s, q := t, p;
    } else if id in Ids(t.left) {
      s, q := Locate(t.left, InLeft(p, t.e, t.red, t.right), id);
    } else {
      s, q := Locate(t.right, InRight(p, t.left, t.e, t.red), id);
    }
  }

  /** The path `q` continued by `base` at its top. */
  function Append(q: Path, base: Path): Path {
    match q
    case Top => base
    case InLeft(up, e, red, right) => InLeft(Append(up, base), e, red, right)
    case InRight(up, left, e, red) => InRight(Append(up, base), left, e, red)
  }

  lemma {:induction false} PlugAppend(q: Path, base: Path, t: Tree)
    ensures Plug(Append(q, base), t) == Plug(base, Plug(q, t))
    decreases q
  {
    if !q.Top? { PlugAppend(q.up, base, Join(q, t)); }
  }

  lemma {:induction false} Narrower(p: Path, below: set<Ref>, below': set<Ref>)
    requires PathApart(p, below) && below' <= below
    ensures PathApart(p, below')
  {
    match p
    case Top =>
    case InLeft(up, e, _, right) => Narrower(up, below + {e.id} + Ids(right), below' + {e.id} + Ids(right));
    case InRight(up, left, e, _) => Narrower(up, below + {e.id} + Ids(left), below' + {e.id} + Ids(left));
  }

  lemma {:induction false} Wider(p: Path, below: set<Ref>, below': set<Ref>)
    requires PathApart(p, below) && below' !! PathIds(p)
    ensures PathApart(p, below')
  {
    match p
    case Top =>
    case InLeft(up, e, _, right) =>
      PathApartIds(up, below + {e.id} + Ids(right));
      Wider(up, below + {e.id} + Ids(right), below' + {e.id} + Ids(right));
    case InRight(up, left, e, _) =>
      PathApartIds(up, below + {e.id} + Ids(left));
      Wider(up, below + {e.id} + Ids(left), below' + {e.id} + Ids(left));
  }

  // --------------------------------------------------------- hanging a node in

  /** The writes of RB_SET and of the link from the parent. */
  ghost predicate Hung(h: Nodes, root: Ref, h': Nodes, root': Ref, p: Path, x: Ref) {
    && x in h && x in h' && h'[x] == Rec(NULL, NULL, Above(p), true, h[x].key)
    && match p
       case Top => root' == x
       case InLeft(_, e, _, _) => e.id in h && e.id in h' && h'[e.id] == h[e.id].(left := x) && root' == root
       case InRight(_, _, e, _) => e.id in h && e.id in h' && h'[e.id] == h[e.id].(right := x) && root' == root
  }

  lemma HungAt(h: Nodes, root: Ref, h': Nodes, root': Ref, p: Path, x: Ref)
    requires At(h, root, Leaf, p) && x != NULL && x !in PathIds(p) && Hung(h, root, h', root', p, x)
    requires Same(h, h', h.Keys - {x, Above(p)})
    ensures At(h', root', Node(Leaf, Elem(x, h[x].key), true, Leaf), p)
  {
    var t := Node(Leaf, Elem(x, h[x].key), true, Leaf);
    assert Ids(t) == {x};
    Wider(p, {}, Ids(t));
    match p
    case Top =>
    case InLeft(up, e, _, right) =>
      PathApartIds(up, {} + {e.id} + Ids(right));
      ReprFrame(h, h', right, e.id);
      PathFrame(h, h', up, e.id, root);
    case InRight(up, left, e, _) =>
      PathApartIds(up, {} + {e.id} + Ids(left));
      ReprFrame(h, h', left, e.id);
      PathFrame(h, h', up, e.id, root);
  }

  // ---------------------------------------------------------- taking a node out

  /** `c` is the only child of the node `t`, or NULL when it has none. */
  predicate OnlyChild(t: Tree, c: Tree) {
    t.Node? && ((t.left.Leaf? && c == t.right) || (t.right.Leaf? && c == t.left))
  }

  /** The writes that put `c` in the place of `x` below `q`. */
  ghost predicate Lifted(h: Nodes, root: Ref, h': Nodes, root': Ref, x: Ref, c: Ref, q: Ref) {
    && (c != NULL ==> c in h && c in h' && h'[c] == h[c].(parent := q))
    && (q != NULL ==> q in h && q in h' && h'[q] == Relink(h, q, x, c)[q] && root' == root)
    && (q == NULL ==> root' == c)
    && Same(h, h', h.Keys - {c, q})
  }

  lemma LiftedAt(h: Nodes, root: Ref, h': Nodes, root': Ref, t: Tree, c: Tree, p: Path)
    requires At(h, root, t, p) && OnlyChild(t, c) && Lifted(h, root, h', root', t.e.id, IdOf(c), Above(p))
    ensures At(h', root', c, p) && t.e.id !in Ids(c) && t.e.id !in PathIds(p)
  {
    var x := t.e.id;
    assert Ids(t) == Ids(c) + {x};
    IdInIds(c);
    PathApartIds(p, Ids(t));
    Reparent(h, h', c, x, Above(p));
    TurnedPath(h, root, h', root', p, x, IdOf(c), Ids(t), {IdOf(c), Above(p)});
    Narrower(p, Ids(t), Ids(c));
  }

  // ------------------------------------------------- a node for another in place

  /** The writes that put `s` in the place of `x`, between `q`, `l` and `r`. */
  ghost predicate Replaced(h: Nodes, root: Ref, h': Nodes, root': Ref, x: Ref, s: Ref, l: Ref, r: Ref, q: Ref) {
    && x in h && s in h && s in h' && h'[s] == h[x].(key := h[s].key)
    && (l != NULL ==> l in h && l in h' && h'[l] == h[l].(parent := s))
    && (r != NULL ==> r in h && r in h' && h'[r] == h[r].(parent := s))
    && (q != NULL ==> q in h && q in h' && h'[q] == Relink(h, q, x, s)[q] && root' == root)
    && (q == NULL ==> root' == s)
    && Same(h, h', h.Keys - {s, l, r, q})
  }

  lemma ReplacedAt(h: Nodes, root: Ref, h': Nodes, root': Ref, t: Tree, p: Path, s: Ref)
    requires At(h, root, t, p) && t.Node? && s != NULL && s !in Ids(t) && s !in PathIds(p)
    requires Replaced(h, root, h', root', t.e.id, s, IdOf(t.left), IdOf(t.right), Above(p))
    ensures At(h', root', t.(e := Elem(s, h[s].key)), p)
  {
    var x, t' := t.e.id, t.(e := Elem(s, h[s].key));
    PathApartIds(p, Ids(t));
    IdInIds(t.left);
    IdInIds(t.right);
    Reparent(h, h', t.left, x, s);
    Reparent(h, h', t.right, x, s);
    ReplacedPath(h, root, h', root', t, p, s);
    assert Ids(t') == Ids(t) - {x} + {s};
    Wider(p, Ids(t), Ids(t'));
  }

  lemma ReplacedPath(h: Nodes, root: Ref, h': Nodes, root': Ref, t: Tree, p: Path, s: Ref)
    requires At(h, root, t, p) && t.Node? && s != NULL && s !in Ids(t) && s !in PathIds(p)
    requires Replaced(h, root, h', root', t.e.id, s, IdOf(t.left), IdOf(t.right), Above(p))
    ensures ReprPath(h', p, s, root')
  {
    var x, all := t.e.id, Ids(t) + {s};
    PathApartIds(p, Ids(t));
    IdInIds(t.left);
    IdInIds(t.right);
    Wider(p, Ids(t), all);
    TurnedPath(h, root, h', root', p, x, s, all, {s, IdOf(t.left), IdOf(t.right), Above(p)});
  }

  // -------------------------------------------------------------------- colours

  /** What is missing once a node with at most one child is gone. */
  lemma TakenOut(t: Tree, c: Tree, p: Path)
    requires RedBlack(Plug(p, t)) && OnlyChild(t, c)
    ensures if t.red then RedBlack(Plug(p, c)) else Sinking(c, p)
  {
    PlugRedBlack(p, t);
    if t.red { TakenRed(t, c, p); } else { TakenBlack(t, c, p); }
  }

  lemma TakenRed(t: Tree, c: Tree, p: Path)
    requires OnlyChild(t, c) && t.red && Balanced(t) && Calm(t) && PathBalanced(p, Blacks(t)) && PathCalm(p)
    ensures RedBlack(Plug(p, c))
  {
    PlugRedBlack(p, c);
  }

  lemma TakenBlack(t: Tree, c: Tree, p: Path)
    requires OnlyChild(t, c) && !t.red && Balanced(t) && Calm(t) && PathBalanced(p, Blacks(t)) && PathCalm(p)
    ensures Sinking(c, p)
  {
  }

  /** Colours do not depend on which node stands where. */
  lemma {:induction false} OtherNodeSinks(q: Path, p: Path, l: Tree, e: Elem, e': Elem, red: bool, n: nat)
    ensures PathBalanced(Append(q, InRight(p, l, e, red)), n) <==> PathBalanced(Append(q, InRight(p, l, e', red)), n)
    ensures PathCalm(Append(q, InRight(p, l, e, red))) <==> PathCalm(Append(q, InRight(p, l, e', red)))
    decreases q
  {
    if !q.Top? { OtherNodeSinks(q.up, p, l, e, e', red, n + if q.red then 0 else 1); }
  }

  lemma OtherNodeRedBlack(p: Path, t: Tree, e: Elem)
    requires t.Node? && RedBlack(Plug(p, t))
    ensures RedBlack(Plug(p, t.(e := e)))
  {
    PlugRedBlack(p, t);
    PlugRedBlack(p, t.(e := e));
  }

  // ------------------------------------------------------- the nodes at hand

  lemma LiftReady(h: Nodes, root: Ref, t: Tree, c: Tree, p: Path)
    requires At(h, root, t, p) && OnlyChild(t, c)
    ensures t.e.id in h && h[t.e.id].parent == Above(p)
    ensures IdOf(c) != NULL ==> IdOf(c) in h && IdOf(c) != t.e.id && IdOf(c) != Above(p)
    ensures Above(p) != NULL ==> Above(p) in h && Above(p) != t.e.id
    ensures c.Node? <==> IdOf(c) != NULL
    ensures p.Top? <==> Above(p) == NULL
  {
    assert Repr(h, c, t.e.id);
    IdInIds(c);
    PathApartIds(p, Ids(t));
  }

  lemma ReplaceReady(h: Nodes, root: Ref, t: Tree, p: Path)
    requires At(h, root, t, p) && t.Node? && t.left.Node?
    ensures var x, l, r, q := t.e.id, IdOf(t.left), IdOf(t.right), Above(p);
            && x in h && h[x].left == l && h[x].right == r && h[x].parent == q
            && l in h && l != NULL && l in Ids(t) && l != x && l != r && l != q
            && (r != NULL ==> r in h && r in Ids(t) && r != x && r != q)
            && (q != NULL ==> q in h && q in PathIds(p) && q != x)
  {
    assert Repr(h, t.left, t.e.id) && Repr(h, t.right, t.e.id);
    IdInIds(t.left);
    IdInIds(t.right);
    PathApartIds(p, Ids(t));
  }

  /** The parent of the successor is the node itself only when the successor is
      its right child. */
  lemma SuccessorParent(h: Nodes, root: Ref, t: Tree, p: Path, q: Path, s: Tree)
    requires Holds(h, root, Plug(p, t)) && t.Node? && t.right == Plug(q, s)
    ensures var below := InRight(p, t.left, t.e, t.red);
            Above(Append(q, below)) == t.e.id <==> q.Top?
  {
    AtPlug(h, root, t, p);
    PlugIds(q, s);
  }

  lemma {:induction false} OrderDistinct(t: Tree)
    requires Apart(t)
    ensures DistinctIds(InOrder(t))
  {
    if t.Node? {
      OrderDistinct(t.left);
      OrderDistinct(t.right);
      var l, r, s := InOrder(t.left), InOrder(t.right), InOrder(t);
      forall i, j | 0 <= i < j < |s| ensures s[i].id != s[j].id {
        OrderIds(t.left, s[i].id);
        OrderIds(t.right, s[j].id);
        if i < |l| { assert l[i] == s[i]; }
        if j > |l| { assert r[j - |l| - 1] == s[j]; }
        if j < |l| { assert l[j] == s[j]; }
        if i > |l| { assert r[i - |l| - 1] == s[i]; }
      }
    }
  }

  lemma ReplacedKeys(h: Nodes, root: Ref, h': Nodes, root': Ref, x: Ref, s: Ref, l: Ref, r: Ref, q: Ref)
    requires Replaced(h, root, h', root', x, s, l, r, q) && h.Keys == h'.Keys && NULL !in h
    ensures SameKeys(h, h')
  {
  }
}
