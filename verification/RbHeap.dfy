/** How the nodes in memory stand for a tree with a marked place. */
module RbHeap {
  import opened TreeKeys
  import opened RbShape

  /** The RB_ENTRY of a node, with the key that the caller's comparison reads. */
  datatype Rec = Rec(left: Ref, right: Ref, parent: Ref, red: bool, key: int)

  type Nodes = map<Ref, Rec>

  ghost function Ids(t: Tree): set<Ref> {
    match t
    case Leaf => {}
    case Node(l, e, _, r) => Ids(l) + {e.id} + Ids(r)
  }

  ghost function PathIds(p: Path): set<Ref> {
    match p
    case Top => {}
    case InLeft(up, e, _, right) => PathIds(up) + {e.id} + Ids(right)
    case InRight(up, left, e, _) => PathIds(up) + {e.id} + Ids(left)
  }

  /** The nodes of `t` are in memory, below `parent`. */
  ghost predicate Repr(h: Nodes, t: Tree, parent: Ref) {
    match t
    case Leaf => true
    case Node(l, e, red, r) =>
      && e.id != NULL && e.id in h && h[e.id] == Rec(IdOf(l), IdOf(r), parent, red, e.key)
      && Repr(h, l, e.id) && Repr(h, r, e.id)
  }

  /** The nodes above a subtree with root `child` are in memory, up to `root`. */
  ghost predicate ReprPath(h: Nodes, p: Path, child: Ref, root: Ref) {
    match p
    case Top => root == child
    case InLeft(up, e, red, right) =>
      && e.id != NULL && e.id in h && h[e.id] == Rec(child, IdOf(right), Above(up), red, e.key)
      && Repr(h, right, e.id) && ReprPath(h, up, e.id, root)
    case InRight(up, left, e, red) =>
      && e.id != NULL && e.id in h && h[e.id] == Rec(IdOf(left), child, Above(up), red, e.key)
      && Repr(h, left, e.id) && ReprPath(h, up, e.id, root)
  }

  /** No node occurs twice. */
  ghost predicate Apart(t: Tree) {
    match t
    case Leaf => true
    case Node(l, e, _, r) =>
      Apart(l) && Apart(r) && e.id !in Ids(l) && e.id !in Ids(r) && Ids(l) !! Ids(r)
  }

  ghost predicate PathApart(p: Path, below: set<Ref>) {
    match p
    case Top => true
    case InLeft(up, e, _, right) =>
      && Apart(right) && e.id !in below && e.id !in Ids(right) && below !! Ids(right)
      && PathApart(up, below + {e.id} + Ids(right))
    case InRight(up, left, e, _) =>
      && Apart(left) && e.id !in below && e.id !in Ids(left) && below !! Ids(left)
      && PathApart(up, below + {e.id} + Ids(left))
  }

  /** Memory holds the tree `Plug(p, t)`. */
  ghost predicate At(h: Nodes, root: Ref, t: Tree, p: Path) {
    && Repr(h, t, Above(p)) && ReprPath(h, p, IdOf(t), root)
    && Apart(t) && PathApart(p, Ids(t)) && NULL !in Ids(t) && NULL !in PathIds(p)
  }

  /** The same nodes, with the keys they had. */
  ghost predicate SameKeys(h: Nodes, h': Nodes) {
    h.Keys == h'.Keys && forall n <- h :: h'[n].key == h[n].key
  }

  // -------------------------------------------------------------- frame lemmas

  ghost predicate Same(h: Nodes, h': Nodes, ids: set<Ref>) {
    forall i <- ids :: i in h ==> i in h' && h'[i] == h[i]
  }

  lemma {:induction false} ReprFrame(h: Nodes, h': Nodes, t: Tree, parent: Ref)
    requires Repr(h, t, parent) && Same(h, h', Ids(t))
    ensures Repr(h', t, parent)
  {
    if t.Node? {
      ReprFrame(h, h', t.left, t.e.id);
      ReprFrame(h, h', t.right, t.e.id);
    }
  }

  lemma {:induction false} PathFrame(h: Nodes, h': Nodes, p: Path, child: Ref, root: Ref)
    requires ReprPath(h, p, child, root) && Same(h, h', PathIds(p))
    ensures ReprPath(h', p, child, root)
  {
    match p
    case Top =>
    case InLeft(up, e, _, right) =>
      ReprFrame(h, h', right, e.id);
      PathFrame(h, h', up, e.id, root);
    case InRight(up, left, e, _) =>
      ReprFrame(h, h', left, e.id);
      PathFrame(h, h', up, e.id, root);
  }

  /** Only the parent of the root of `t` changes. */
  lemma Reparent(h: Nodes, h': Nodes, t: Tree, parent: Ref, parent': Ref)
    requires Repr(h, t, parent) && Apart(t)
    requires t.Node? ==> t.e.id in h' && h'[t.e.id] == h[t.e.id].(parent := parent')
    requires Same(h, h', Ids(t) - {IdOf(t)})
    ensures Repr(h', t, parent')
  {
    if t.Node? {
      ReprFrame(h, h', t.left, t.e.id);
      ReprFrame(h, h', t.right, t.e.id);
    }
  }

  lemma {:induction false} PathApartIds(p: Path, below: set<Ref>)
    requires PathApart(p, below)
    ensures below !! PathIds(p)
  {
    match p
    case Top =>
    case InLeft(up, e, _, right) => PathApartIds(up, below + {e.id} + Ids(right));
    case InRight(up, left, e, _) => PathApartIds(up, below + {e.id} + Ids(left));
  }

  // -------------------------------------------------- moving the marked place

  lemma UpLeft(h: Nodes, root: Ref, t: Tree, up: Path, e: Elem, red: bool, right: Tree)
    ensures At(h, root, t, InLeft(up, e, red, right)) <==> At(h, root, Node(t, e, red, right), up)
  {
    assert Ids(t) + {e.id} + Ids(right) == Ids(Node(t, e, red, right));
  }

  lemma UpRight(h: Nodes, root: Ref, left: Tree, t: Tree, up: Path, e: Elem, red: bool)
    ensures At(h, root, t, InRight(up, left, e, red)) <==> At(h, root, Node(left, e, red, t), up)
  {
    assert Ids(t) + {e.id} + Ids(left) == Ids(Node(left, e, red, t));
  }

  /** The pointer to the marked subtree: its parent's link, or the root. */
  function Relink(h: Nodes, parent: Ref, old_: Ref, child: Ref): Nodes {
    if parent !in h then h
    else if h[parent].left == old_ then h[parent := h[parent].(left := child)]
    else h[parent := h[parent].(right := child)]
  }

  lemma RelinkPath(h: Nodes, p: Path, old_: Ref, child: Ref, root: Ref, below: set<Ref>)
    requires ReprPath(h, p, old_, root) && old_ != NULL && old_ in below && PathApart(p, below) && NULL !in PathIds(p)
    ensures p.Top? ==> ReprPath(h, p, child, child)
    ensures !p.Top? ==> ReprPath(Relink(h, Above(p), old_, child), p, child, root)
    ensures Same(h, Relink(h, Above(p), old_, child), h.Keys - {Above(p)})
  {
    var h' := Relink(h, Above(p), old_, child);
    match p
    case Top =>
    case InLeft(up, e, _, right) =>
      PathApartIds(up, below + {e.id} + Ids(right));
      ReprFrame(h, h', right, e.id);
      PathFrame(h, h', up, e.id, root);
    case InRight(up, left, e, _) =>
      assert IdOf(left) != old_ by { if left.Node? { assert left.e.id in Ids(left); } }
      PathApartIds(up, below + {e.id} + Ids(left));
      ReprFrame(h, h', left, e.id);
      PathFrame(h, h', up, e.id, root);
  }

  // --------------------------------------------------------------- rotations

  /** The pointer writes of a left rotation: `y` takes the place of `x` below
      `q`, and hands its left child `b` to `x`. */
  ghost predicate TurnedLeft(h: Nodes, root: Ref, h': Nodes, root': Ref, x: Ref, y: Ref, b: Ref, q: Ref) {
    && x in h && y in h && x in h' && y in h'
    && h'[x] == h[x].(right := b, parent := y)
    && h'[y] == h[y].(left := x, parent := q)
    && (b != NULL ==> b in h && b in h' && h'[b] == h[b].(parent := x))
    && (q != NULL ==> q in h && q in h' && h'[q] == Relink(h, q, x, y)[q] && root' == root)
    && (q == NULL ==> root' == y)
    && Same(h, h', h.Keys - {x, y, b, q})
  }

  lemma TurnedLeftAt(h: Nodes, root: Ref, h': Nodes, root': Ref, t: Tree, p: Path)
    requires At(h, root, t, p) && t.Node? && t.right.Node?
    requires TurnedLeft(h, root, h', root', t.e.id, t.right.e.id, IdOf(t.right.left), Above(p))
    ensures At(h', root', RotatedLeft(t), p)
  {
    var x, y, b := t.e.id, t.right.e.id, t.right.left;
    TurnedLeftRepr(h, root, h', root', t, p);
    LeftKeepsIds(t);
    IdInIds(b);
    TurnedPath(h, root, h', root', p, x, y, Ids(t), {x, y, IdOf(b), Above(p)});
  }

  lemma LeftKeepsIds(t: Tree)
    requires t.Node? && t.right.Node? && Apart(t)
    ensures Apart(RotatedLeft(t)) && Ids(RotatedLeft(t)) == Ids(t)
  {
    assert Apart(t.right);
    assert Apart(RotatedLeft(t).left);
  }

  lemma TurnedLeftRepr(h: Nodes, root: Ref, h': Nodes, root': Ref, t: Tree, p: Path)
    requires At(h, root, t, p) && t.Node? && t.right.Node?
    requires TurnedLeft(h, root, h', root', t.e.id, t.right.e.id, IdOf(t.right.left), Above(p))
    ensures Repr(h', RotatedLeft(t), Above(p))
  {
    var x, y, a, b, c := t.e.id, t.right.e.id, t.left, t.right.left, t.right.right;
    var touched := {x, y, IdOf(b), Above(p)};
    assert Repr(h, t.right, x) && Apart(t.right);
    PathApartIds(p, Ids(t));
    assert !p.Top? ==> Above(p) in PathIds(p);
    IdInIds(b);
    Untouched(h, h', touched, a, x);
    Untouched(h, h', touched, c, y);
    Reparent(h, h', b, y, x);
    assert Repr(h', RotatedLeft(t).left, y);
  }

  lemma Untouched(h: Nodes, h': Nodes, touched: set<Ref>, t: Tree, parent: Ref)
    requires Repr(h, t, parent) && Same(h, h', h.Keys - touched) && Ids(t) !! touched
    ensures Repr(h', t, parent)
  {
    ReprFrame(h, h', t, parent);
  }

  lemma IdInIds(t: Tree)
    ensures t.Node? ==> IdOf(t) in Ids(t)
  {
  }

  lemma TurnedPath(h: Nodes, root: Ref, h': Nodes, root': Ref, p: Path, x: Ref, y: Ref, below: set<Ref>,
                   touched: set<Ref>)
    requires ReprPath(h, p, x, root) && x != NULL && x in below && PathApart(p, below) && NULL !in PathIds(p)
    requires touched <= below + {Above(p), NULL} && Same(h, h', h.Keys - touched)
    requires !p.Top? ==> Above(p) in h && Above(p) in h' && root' == root
    requires !p.Top? ==> h'[Above(p)] == Relink(h, Above(p), x, y)[Above(p)]
    requires p.Top? ==> root' == y
    ensures ReprPath(h', p, y, root')
  {
    if !p.Top? {
      RelinkPath(h, p, x, y, root, below);
      PathApartIds(p, below);
      var h1 := Relink(h, Above(p), x, y);
      assert Same(h1, h', PathIds(p));
      PathFrame(h1, h', p, y, root);
    }
  }

  /** The pointer writes of a right rotation: `y` takes the place of `x` below
      `q`, and hands its right child `b` to `x`. */
  ghost predicate TurnedRight(h: Nodes, root: Ref, h': Nodes, root': Ref, x: Ref, y: Ref, b: Ref, q: Ref) {
    && x in h && y in h && x in h' && y in h'
    && h'[x] == h[x].(left := b, parent := y)
    && h'[y] == h[y].(right := x, parent := q)
    && (b != NULL ==> b in h && b in h' && h'[b] == h[b].(parent := x))
    && (q != NULL ==> q in h && q in h' && h'[q] == Relink(h, q, x, y)[q] && root' == root)
    && (q == NULL ==> root' == y)
    && Same(h, h', h.Keys - {x, y, b, q})
  }

  lemma TurnedRightAt(h: Nodes, root: Ref, h': Nodes, root': Ref, t: Tree, p: Path)
    requires At(h, root, t, p) && t.Node? && t.left.Node?
    requires TurnedRight(h, root, h', root', t.e.id, t.left.e.id, IdOf(t.left.right), Above(p))
    ensures At(h', root', RotatedRight(t), p)
  {
    var x, y, b := t.e.id, t.left.e.id, t.left.right;
    TurnedRightRepr(h, root, h', root', t, p);
    RightKeepsIds(t);
    IdInIds(b);
    TurnedPath(h, root, h', root', p, x, y, Ids(t), {x, y, IdOf(b), Above(p)});
  }

  lemma RightKeepsIds(t: Tree)
    requires t.Node? && t.left.Node? && Apart(t)
    ensures Apart(RotatedRight(t)) && Ids(RotatedRight(t)) == Ids(t)
  {
    assert Apart(t.left);
    assert Apart(RotatedRight(t).right);
  }

  lemma TurnedRightRepr(h: Nodes, root: Ref, h': Nodes, root': Ref, t: Tree, p: Path)
    requires At(h, root, t, p) && t.Node? && t.left.Node?
    requires TurnedRight(h, root, h', root', t.e.id, t.left.e.id, IdOf(t.left.right), Above(p))
    ensures Repr(h', RotatedRight(t), Above(p))
  {
    var x, y, a, b, c := t.e.id, t.left.e.id, t.left.left, t.left.right, t.right;
    var touched := {x, y, IdOf(b), Above(p)};
    assert Repr(h, t.left, x) && Apart(t.left);
    PathApartIds(p, Ids(t));
    assert !p.Top? ==> Above(p) in PathIds(p);
    IdInIds(b);
    Untouched(h, h', touched, a, y);
    Untouched(h, h', touched, c, x);
    Reparent(h, h', b, y, x);
    assert Repr(h', RotatedRight(t).right, y);
  }

  // ------------------------------------------------------------------ colours

  function Painted(t: Tree, red: bool): Tree
    requires t.Node?
  {
    t.(red := red)
  }

  lemma PaintedAt(h: Nodes, root: Ref, t: Tree, p: Path, red: bool)
    requires At(h, root, t, p) && t.Node?
    ensures t.e.id in h && At(h[t.e.id := h[t.e.id].(red := red)], root, Painted(t, red), p)
  {
    var x := t.e.id;
    var h' := h[x := h[x].(red := red)];
    PathApartIds(p, Ids(t));
    ReprFrame(h, h', t.left, x);
    ReprFrame(h, h', t.right, x);
    PathFrame(h, h', p, x, root);
    assert Ids(Painted(t, red)) == Ids(t);
  }

  // -------------------------------------------------------------- whole trees

  /** Memory holds exactly the tree `t`. */
  ghost predicate Holds(h: Nodes, root: Ref, t: Tree) {
    At(h, root, t, Top)
  }

  /** Any place of the tree can be the marked one. */
  lemma {:induction false} AtPlug(h: Nodes, root: Ref, t: Tree, p: Path)
    ensures At(h, root, t, p) <==> Holds(h, root, Plug(p, t))
    decreases p
  {
    match p
    case Top =>
    case InLeft(up, e, red, right) =>
      UpLeft(h, root, t, up, e, red, right);
      AtPlug(h, root, Node(t, e, red, right), up);
    case InRight(up, left, e, red) =>
      UpRight(h, root, left, t, up, e, red);
      AtPlug(h, root, Node(left, e, red, t), up);
  }

  /** The fields of the node at a place. */
  lemma Here(h: Nodes, root: Ref, t: Tree, p: Path)
    requires Holds(h, root, Plug(p, t)) && t.Node?
    ensures t.e.id != NULL && t.e.id in h
    ensures h[t.e.id] == Rec(IdOf(t.left), IdOf(t.right), Above(p), t.red, t.e.key)
    ensures t.left.Node? || t.right.Node? ==> IdOf(t.left) != IdOf(t.right)
    ensures t.left.Node? ==> t.left.e.id != t.e.id && t.left.e.id != NULL
    ensures t.right.Node? ==> t.right.e.id != t.e.id && t.right.e.id != NULL
  {
    AtPlug(h, root, t, p);
    IdInIds(t.left);
    IdInIds(t.right);
  }

  lemma {:induction false} PathRoot(h: Nodes, p: Path, child: Ref, root: Ref)
    requires ReprPath(h, p, child, root)
    ensures if p.Top? then root == child else root in PathIds(p)
  {
    match p
    case Top =>
    case InLeft(up, e, _, right) => PathRoot(h, up, e.id, root);
    case InRight(up, left, e, _) => PathRoot(h, up, e.id, root);
  }

  /** Only the topmost place is the root. */
  lemma RootHere(h: Nodes, root: Ref, t: Tree, p: Path)
    requires Holds(h, root, Plug(p, t))
    ensures IdOf(t) == root <==> p.Top?
  {
    AtPlug(h, root, t, p);
    PathRoot(h, p, IdOf(t), root);
    PathApartIds(p, Ids(t));
    IdInIds(t);
  }

  /** The nodes that a left rotation touches are in memory and distinct. */
  lemma TurnLeftReady(h: Nodes, root: Ref, t: Tree, p: Path)
    requires At(h, root, t, p) && t.Node? && t.right.Node?
    ensures t.e.id in h && h[t.e.id].right == t.right.e.id && h[t.e.id].parent == Above(p)
    ensures t.right.e.id in h && h[t.right.e.id].left == IdOf(t.right.left)
    ensures t.right.left.Node? ==> t.right.left.e.id in h
    ensures Above(p) != NULL ==> Above(p) in h
    ensures Distinct4(t.e.id, t.right.e.id, IdOf(t.right.left), Above(p))
  {
    assert Repr(h, t.right, t.e.id) && Apart(t.right);
    assert Repr(h, t.right.left, t.right.e.id);
    IdInIds(t.right.left);
    PathApartIds(p, Ids(t));
  }

  /** Different nodes, NULL aside. */
  predicate Distinct4(x: Ref, y: Ref, b: Ref, q: Ref) {
    x != NULL && y != NULL && x != y && b != x && b != y && q != x && q != y && (b == q ==> b == NULL)
  }

  lemma TurnRightReady(h: Nodes, root: Ref, t: Tree, p: Path)
    requires At(h, root, t, p) && t.Node? && t.left.Node?
    ensures t.e.id in h && h[t.e.id].left == t.left.e.id && h[t.e.id].parent == Above(p)
    ensures t.left.e.id in h && h[t.left.e.id].right == IdOf(t.left.right)
    ensures t.left.right.Node? ==> t.left.right.e.id in h
    ensures Above(p) != NULL ==> Above(p) in h
    ensures Distinct4(t.e.id, t.left.e.id, IdOf(t.left.right), Above(p))
  {
    assert Repr(h, t.left, t.e.id) && Apart(t.left);
    assert Repr(h, t.left.right, t.left.e.id);
    IdInIds(t.left.right);
    PathApartIds(p, Ids(t));
  }

  /** The fields of the node at a place, and the colours of its children. */
  lemma Family(h: Nodes, root: Ref, t: Tree, p: Path)
    requires Holds(h, root, Plug(p, t)) && t.Node?
    ensures t.e.id != NULL && t.e.id in h
    ensures h[t.e.id] == Rec(IdOf(t.left), IdOf(t.right), Above(p), t.red, t.e.key)
    ensures t.left.Node? ==> t.left.e.id != NULL && t.left.e.id in h && h[t.left.e.id].red == t.left.red
    ensures t.right.Node? ==> t.right.e.id != NULL && t.right.e.id in h && h[t.right.e.id].red == t.right.red
    ensures t.left.Node? || t.right.Node? ==> IdOf(t.left) != IdOf(t.right)
  {
    Here(h, root, t, p);
    if t.left.Node? { Here(h, root, t.left, InLeft(p, t.e, t.red, t.right)); }
    if t.right.Node? { Here(h, root, t.right, InRight(p, t.left, t.e, t.red)); }
  }

  lemma TurnedLeftKeys(h: Nodes, root: Ref, h': Nodes, root': Ref, x: Ref, y: Ref, b: Ref, q: Ref)
    requires TurnedLeft(h, root, h', root', x, y, b, q) && h.Keys == h'.Keys && NULL !in h
    ensures SameKeys(h, h')
  {
  }

  lemma TurnedRightKeys(h: Nodes, root: Ref, h': Nodes, root': Ref, x: Ref, y: Ref, b: Ref, q: Ref)
    requires TurnedRight(h, root, h', root', x, y, b, q) && h.Keys == h'.Keys && NULL !in h
    ensures SameKeys(h, h')
  {
  }
}
