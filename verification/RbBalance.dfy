/** What the recolouring loops of the red-black tree keep while they climb. */
module RbBalance {
  import opened Modular
  import opened RbShape
  import opened RbHeap

  /** The subtree one step up. */
  function Join(p: Path, t: Tree): Tree
    requires !p.Top?
  {
    if p.InLeft? then Node(t, p.e, p.red, p.right) else Node(p.left, p.e, p.red, t)
  }

  function Depth(p: Path): nat {
    if p.Top? then 0 else 1 + Depth(p.up)
  }

  // ------------------------------------------------------------ after inserting

  /** All is well but for a red node `t` that may sit below a red one. */
  ghost predicate Rising(t: Tree, p: Path) {
    Red(t) && Balanced(t) && Calm(t) && PathBalanced(p, Blacks(t)) && PathCalm(p)
  }

  /** A red parent has a black grandparent above it. */
  lemma RedParent(t: Tree, p: Path)
    requires Rising(t, p) && RedAbove(p)
    ensures !p.up.Top? && !p.up.red
  {
  }

  /** The grandparent in red over its two children in black. */
  function Recolored(g: Path, s: Tree): Tree
    requires g.InLeft? ==> g.right.Node?
    requires g.InRight? ==> g.left.Node?
    requires !g.Top?
  {
    if g.InLeft? then Node(s, g.e, true, Painted(g.right, false))
    else Node(Painted(g.left, false), g.e, true, s)
  }

  predicate RedUncle(g: Path) {
    match g
    case Top => false
    case InLeft(_, _, _, right) => Red(right)
    case InRight(_, left, _, _) => Red(left)
  }

  lemma RecoloredRises(t: Tree, p: Path)
    requires Rising(t, p) && RedAbove(p) && RedUncle(p.up)
    ensures Rising(Recolored(p.up, Painted(Join(p, t), false)), p.up.up)
  {
    var g := p.up;
    assert PathBalanced(g, Blacks(t)) && PathCalm(g);
    assert Balanced(Join(p, t)) && Blacks(Join(p, t)) == Blacks(t);
  }

  /** An inner grandchild and its parent change places. */
  lemma InnerLeftRises(t: Tree, p: Path)
    requires Rising(t, p) && RedAbove(p) && p.InRight?
    ensures Rising(Node(p.left, p.e, true, t.left), InLeft(p.up, t.e, true, t.right))
  {
  }

  lemma InnerRightRises(t: Tree, p: Path)
    requires Rising(t, p) && RedAbove(p) && p.InLeft?
    ensures Rising(Node(t.right, p.e, true, p.right), InRight(p.up, t.left, t.e, true))
  {
  }

  /** The last rotation of the insertion, about a black uncle. */
  lemma OuterLeftRises(t: Tree, p: Path)
    requires Rising(t, p) && RedAbove(p) && p.InLeft? && p.up.InLeft? && !RedUncle(p.up)
    ensures Rising(t, InLeft(p.up.up, p.e, false, Node(p.right, p.up.e, true, p.up.right)))
  {
    assert PathBalanced(p.up, Blacks(t)) && PathCalm(p.up);
  }

  lemma OuterRightRises(t: Tree, p: Path)
    requires Rising(t, p) && RedAbove(p) && p.InRight? && p.up.InRight? && !RedUncle(p.up)
    ensures Rising(t, InRight(p.up.up, Node(p.up.left, p.up.e, true, p.left), p.e, false))
  {
    assert PathBalanced(p.up, Blacks(t)) && PathCalm(p.up);
  }

  /** With no red parent left, blackening the root restores the invariant. */
  lemma RisenIsRedBlack(t: Tree, p: Path)
    requires Rising(t, p) && !RedAbove(p)
    ensures Plug(p, t).Node? && RedBlack(Painted(Plug(p, t), false))
  {
    PlugBalanced(p, t);
    PlugCalm(p, t);
    PlugNode(p, t);
  }

  lemma {:induction false} PlugNode(p: Path, t: Tree)
    requires t.Node?
    ensures Plug(p, t).Node?
  {
    if !p.Top? { PlugNode(p.up, Join(p, t)); }
  }

  // ------------------------------------------------------------- after removing

  function Blackened(t: Tree): Tree {
    if t.Node? then Painted(t, false) else Leaf
  }

  /** All is well but for one black node that `t` is short of. */
  ghost predicate Sinking(t: Tree, p: Path) {
    Balanced(t) && Calm(Blackened(t)) && PathBalanced(p, Blacks(t) + 1) && PathCalm(p)
  }

  /** A red node, or the root, makes up for it by turning black. */
  lemma SunkIsRedBlack(t: Tree, p: Path)
    requires Sinking(t, p) && (Red(t) || p.Top?)
    ensures RedBlack(Plug(p, Blackened(t)))
  {
    PlugRedBlack(p, Blackened(t));
  }

  /** The sibling of a subtree that is short of a black node. */
  lemma SiblingIsNode(t: Tree, p: Path)
    requires Sinking(t, p) && !p.Top?
    ensures p.InLeft? ==> p.right.Node?
    ensures p.InRight? ==> p.left.Node?
  {
  }

  lemma RedSiblingLeftSinks(t: Tree, p: Path)
    requires Sinking(t, p) && p.InLeft? && Red(p.right)
    ensures !p.red
    ensures Sinking(t, InLeft(InLeft(p.up, p.right.e, false, p.right.right), p.e, true, p.right.left))
    ensures p.right.left.Node? && !p.right.left.red
  {
  }

  lemma RedSiblingRightSinks(t: Tree, p: Path)
    requires Sinking(t, p) && p.InRight? && Red(p.left)
    ensures !p.red
    ensures Sinking(t, InRight(InRight(p.up, p.left.left, p.left.e, false), p.left.right, p.e, true))
    ensures p.left.right.Node? && !p.left.right.red
  {
  }

  /** A sibling with black children turns red, and the parent is short instead. */
  lemma BlackNephewsLeftSink(t: Tree, p: Path)
    requires Sinking(t, p) && !Red(t) && p.InLeft? && p.right.Node? && !p.right.red && !Red(p.right.left) &&
             !Red(p.right.right)
    ensures Sinking(Node(t, p.e, p.red, Painted(p.right, true)), p.up)
  {
  }

  lemma BlackNephewsRightSink(t: Tree, p: Path)
    requires Sinking(t, p) && !Red(t) && p.InRight? && p.left.Node? && !p.left.red && !Red(p.left.left) &&
             !Red(p.left.right)
    ensures Sinking(Node(Painted(p.left, true), p.e, p.red, t), p.up)
  {
  }

  /** The sibling after its red inner child has taken its place. */
  function InnerRaisedLeft(s: Tree): Tree
    requires s.Node? && s.left.Node?
  {
    Node(s.left.left, s.left.e, false, Node(s.left.right, s.e, true, s.right))
  }

  function InnerRaisedRight(s: Tree): Tree
    requires s.Node? && s.right.Node?
  {
    Node(Node(s.left, s.e, true, s.right.left), s.right.e, false, s.right.right)
  }

  lemma InnerNephewLeftSinks(t: Tree, p: Path)
    requires Sinking(t, p) && p.InLeft? && p.right.Node? && !p.right.red && Red(p.right.left) && !Red(p.right.right)
    ensures Sinking(t, p.(right := InnerRaisedLeft(p.right))) && Red(InnerRaisedLeft(p.right).right)
  {
    var s, s' := p.right, InnerRaisedLeft(p.right);
    assert Balanced(s.left) && Calm(s.left) && Balanced(s'.right) && Calm(s'.right);
    assert Balanced(s') && Blacks(s') == Blacks(s) && Calm(s');
  }

  lemma InnerNephewRightSinks(t: Tree, p: Path)
    requires Sinking(t, p) && p.InRight? && p.left.Node? && !p.left.red && Red(p.left.right) && !Red(p.left.left)
    ensures Sinking(t, p.(left := InnerRaisedRight(p.left))) && Red(InnerRaisedRight(p.left).left)
  {
    var s, s' := p.left, InnerRaisedRight(p.left);
    assert Balanced(s.right) && Calm(s.right) && Balanced(s'.left) && Calm(s'.left);
    assert Balanced(s') && Blacks(s') == Blacks(s) && Calm(s');
  }

  /** The rotation that ends the removal. */
  lemma OuterNephewLeftSettles(t: Tree, p: Path)
    requires Sinking(t, p) && !Red(t) && p.InLeft? && p.right.Node? && !p.right.red && Red(p.right.right)
    ensures RedBlack(Plug(p.up,
                          Node(Node(t, p.e, false, p.right.left), p.right.e, p.red, Painted(p.right.right, false))))
  {
    var n := Node(Node(t, p.e, false, p.right.left), p.right.e, p.red, Painted(p.right.right, false));
    assert Balanced(p.right.right) && Calm(p.right.right);
    assert Balanced(n.left) && Calm(n.left) && Blacks(n.left) == Blacks(t) + 1;
    assert Balanced(n.right) && Calm(n.right) && Blacks(n.right) == Blacks(t) + 1;
    PlugRedBlack(p.up, n);
  }

  lemma OuterNephewRightSettles(t: Tree, p: Path)
    requires Sinking(t, p) && !Red(t) && p.InRight? && p.left.Node? && !p.left.red && Red(p.left.left)
    ensures RedBlack(Plug(p.up, Node(Painted(p.left.left, false), p.left.e, p.red, Node(p.left.right, p.e, false, t))))
  {
    var n := Node(Painted(p.left.left, false), p.left.e, p.red, Node(p.left.right, p.e, false, t));
    assert Balanced(p.left.left) && Calm(p.left.left);
    assert Balanced(n.right) && Calm(n.right) && Blacks(n.right) == Blacks(t) + 1;
    assert Balanced(n.left) && Calm(n.left) && Blacks(n.left) == Blacks(t) + 1;
    PlugRedBlack(p.up, n);
  }

  /** Falls at every turn of the loop: up the tree, or to a red node. */
  function Weight(t: Tree, p: Path): nat {
    Depth(p) + if Red(t) then 0 else 1
  }

  // ------------------------------------------------------------------- heights

  function Max(a: nat, b: nat): nat { if a < b then b else a }

  function Height(t: Tree): nat {
    if t.Leaf? then 0 else 1 + Max(Height(t.left), Height(t.right))
  }

  lemma {:induction false} EnoughNodes(t: Tree)
    requires Balanced(t)
    ensures Pow2(Blacks(t)) <= |InOrder(t)| + 1
  {
    if t.Node? {
      EnoughNodes(t.left);
      EnoughNodes(t.right);
    }
  }

  lemma {:induction false} HalfBlack(t: Tree)
    requires Balanced(t) && Calm(t)
    ensures Height(t) <= 2 * Blacks(t) + if Red(t) then 1 else 0
  {
    if t.Node? {
      HalfBlack(t.left);
      HalfBlack(t.right);
    }
  }

  lemma {:induction false} Pow2Twice(m: nat, n: nat)
    requires m <= 2 * n
    ensures Pow2(m) <= Pow2(n) * Pow2(n)
  {
    if m <= 1 {
      if n > 0 { Pow2Twice(0, n - 1); }
    } else {
      Pow2Twice(m - 2, n - 1);
      assert Pow2(m) == 4 * Pow2(m - 2);
      assert Pow2(n) * Pow2(n) == 4 * (Pow2(n - 1) * Pow2(n - 1));
    }
  }

  lemma SquareUp(b: nat, n: nat)
    requires b <= n
    ensures b * b <= n * n
  {
    assert b * b <= b * n <= n * n;
  }

  /** No way down is longer than twice the logarithm of the size. */
  lemma HeightBound(t: Tree)
    requires RedBlack(t)
    ensures Pow2(Height(t)) <= (|InOrder(t)| + 1) * (|InOrder(t)| + 1)
  {
    EnoughNodes(t);
    HalfBlack(t);
    Pow2Twice(Height(t), Blacks(t));
    SquareUp(Pow2(Blacks(t)), |InOrder(t)| + 1);
  }
}
