/** Red-black trees as values: the shapes, orders and balance conditions that
    the pointers of include/sys/tree.h stand for.

    A node of the source reaches the rest of its tree through `parent`; here a
    Path is what lies above a subtree, so that a subtree and a path together
    are a tree with a place marked in it. */
module RbShape {
  import opened TreeKeys

  datatype Tree = Leaf | Node(left: Tree, e: Elem, red: bool, right: Tree)

  datatype Path =
    | Top
    | InLeft(up: Path, e: Elem, red: bool, right: Tree)
    | InRight(up: Path, left: Tree, e: Elem, red: bool)

  function IdOf(t: Tree): Ref {
    if t.Leaf? then NULL else t.e.id
  }

  /** The parent of the marked subtree. */
  function Above(p: Path): Ref {
    if p.Top? then NULL else p.e.id
  }

  function Plug(p: Path, t: Tree): Tree {
    match p
    case Top => t
    case InLeft(up, e, red, right) => Plug(up, Node(t, e, red, right))
    case InRight(up, left, e, red) => Plug(up, Node(left, e, red, t))
  }

  // ------------------------------------------------------------------- order

  function InOrder(t: Tree): seq<Elem> {
    match t
    case Leaf => []
    case Node(l, e, _, r) => InOrder(l) + [e] + InOrder(r)
  }

  function Before(p: Path): seq<Elem> {
    match p
    case Top => []
    case InLeft(up, _, _, _) => Before(up)
    case InRight(up, left, e, _) => Before(up) + InOrder(left) + [e]
  }

  function After(p: Path): seq<Elem> {
    match p
    case Top => []
    case InLeft(up, e, _, right) => [e] + InOrder(right) + After(up)
    case InRight(up, _, _, _) => After(up)
  }

  lemma {:induction false} PlugOrder(p: Path, t: Tree)
    ensures InOrder(Plug(p, t)) == Before(p) + InOrder(t) + After(p)
  {
    match p
    case Top =>
    case InLeft(up, e, red, right) =>
      PlugOrder(up, Node(t, e, red, right));
      Shifted(Before(up), InOrder(t), e, InOrder(right), After(up));
    case InRight(up, left, e, red) =>
      PlugOrder(up, Node(left, e, red, t));
      Shifted(Before(up), InOrder(left), e, InOrder(t), After(up));
  }

  // ----------------------------------------------------------------- balance

  predicate Red(t: Tree) { t.Node? && t.red }

  /** The black nodes on the leftmost way down. */
  function Blacks(t: Tree): nat {
    match t
    case Leaf => 0
    case Node(l, _, red, _) => Blacks(l) + if red then 0 else 1
  }

  /** All ways down pass the same number of black nodes. */
  predicate Balanced(t: Tree) {
    match t
    case Leaf => true
    case Node(l, _, _, r) => Balanced(l) && Balanced(r) && Blacks(l) == Blacks(r)
  }

  /** No red node has a red child. */
  predicate Calm(t: Tree) {
    match t
    case Leaf => true
    case Node(l, _, red, r) => Calm(l) && Calm(r) && (red ==> !Red(l) && !Red(r))
  }

  predicate RedBlack(t: Tree) { Balanced(t) && Calm(t) && !Red(t) }

  /** What the tree above needs of a subtree that has `n` blacks. */
  predicate PathBalanced(p: Path, n: nat) {
    match p
    case Top => true
    case InLeft(up, _, red, right) =>
      Balanced(right) && Blacks(right) == n && PathBalanced(up, n + if red then 0 else 1)
    case InRight(up, left, _, red) =>
      Balanced(left) && Blacks(left) == n && PathBalanced(up, n + if red then 0 else 1)
  }

  predicate RedAbove(p: Path) { !p.Top? && p.red }

  /** The same for reds; the topmost node is black. */
  predicate PathCalm(p: Path) {
    match p
    case Top => true
    case InLeft(up, _, red, right) =>
      Calm(right) && (red ==> !Red(right) && !up.Top? && !up.red) && PathCalm(up)
    case InRight(up, left, _, red) =>
      Calm(left) && (red ==> !Red(left) && !up.Top? && !up.red) && PathCalm(up)
  }

  lemma {:induction false} PlugBalanced(p: Path, t: Tree)
    ensures Balanced(Plug(p, t)) <==> Balanced(t) && PathBalanced(p, Blacks(t))
  {
    match p
    case Top =>
    case InLeft(up, e, red, right) => PlugBalanced(up, Node(t, e, red, right));
    case InRight(up, left, e, red) => PlugBalanced(up, Node(left, e, red, t));
  }

  lemma {:induction false} PlugCalm(p: Path, t: Tree)
    ensures Calm(Plug(p, t)) && (!p.Top? ==> !Red(Plug(p, t))) <==>
            Calm(t) && PathCalm(p) && !(Red(t) && RedAbove(p))
  {
    match p
    case Top =>
    case InLeft(up, e, red, right) => PlugCalm(up, Node(t, e, red, right));
    case InRight(up, left, e, red) => PlugCalm(up, Node(left, e, red, t));
  }

  /** A calm place in a calm path makes a red-black tree. */
  lemma PlugRedBlack(p: Path, t: Tree)
    ensures Balanced(t) && PathBalanced(p, Blacks(t)) && Calm(t) && PathCalm(p) && !(Red(t) && (RedAbove(p) || p.Top?))
            <==> RedBlack(Plug(p, t))
  {
    PlugBalanced(p, t);
    PlugCalm(p, t);
  }

  // --------------------------------------------------------------- rotations

  function RotatedLeft(t: Tree): Tree
    requires t.Node? && t.right.Node?
  {
    var r := t.right;
    Node(Node(t.left, t.e, t.red, r.left), r.e, r.red, r.right)
  }

  function RotatedRight(t: Tree): Tree
    requires t.Node? && t.left.Node?
  {
    var l := t.left;
    Node(l.left, l.e, l.red, Node(l.right, t.e, t.red, t.right))
  }

  lemma LeftKeepsOrder(t: Tree)
    requires t.Node? && t.right.Node?
    ensures InOrder(RotatedLeft(t)) == InOrder(t)
  {
    var r := t.right;
    Regrouped(InOrder(t.left), t.e, InOrder(r.left), r.e, InOrder(r.right));
    assert InOrder(r) == InOrder(r.left) + [r.e] + InOrder(r.right);
    assert InOrder(RotatedLeft(t).left) == InOrder(t.left) + [t.e] + InOrder(r.left);
  }

  lemma RightKeepsOrder(t: Tree)
    requires t.Node? && t.left.Node?
    ensures InOrder(RotatedRight(t)) == InOrder(t)
  {
    var l := t.left;
    Regrouped(InOrder(l.left), l.e, InOrder(l.right), t.e, InOrder(t.right));
    assert InOrder(l) == InOrder(l.left) + [l.e] + InOrder(l.right);
    assert InOrder(RotatedRight(t).right) == InOrder(l.right) + [t.e] + InOrder(t.right);
  }
}
