/** Splay trees as values and in memory, and the two trees that the top-down
    splay of include/sys/tree.h takes apart on its way. */
module SplayShape {
  import opened TreeKeys

  datatype Tree = Leaf | Node(left: Tree, e: Elem, right: Tree)

  /** A tree whose rightmost link is still open: what lies left of the way. */
  datatype Lefts = NoLeft | LinkLeft(init: Lefts, lt: Tree, e: Elem)

  /** A tree whose leftmost link is still open. */
  datatype Rights = NoRight | LinkRight(init: Rights, e: Elem, rt: Tree)

  function IdOf(t: Tree): Ref { if t.Leaf? then NULL else t.e.id }

  function Size(t: Tree): nat {
    if t.Leaf? then 0 else Size(t.left) + 1 + Size(t.right)
  }

  // ------------------------------------------------------------------- order

  function InOrder(t: Tree): seq<Elem> {
    if t.Leaf? then [] else InOrder(t.left) + [t.e] + InOrder(t.right)
  }

  function LeftOrder(l: Lefts): seq<Elem> {
    if l.NoLeft? then [] else LeftOrder(l.init) + InOrder(l.lt) + [l.e]
  }

  function RightOrder(r: Rights): seq<Elem> {
    if r.NoRight? then [] else [r.e] + InOrder(r.rt) + RightOrder(r.init)
  }

  /** All that is in hand, in order. */
  function Spread(l: Lefts, t: Tree, r: Rights): seq<Elem> {
    LeftOrder(l) + InOrder(t) + RightOrder(r)
  }

  /** The open link of `l` filled with `t`. */
  function CloseLeft(l: Lefts, t: Tree): Tree {
    if l.NoLeft? then t else CloseLeft(l.init, Node(l.lt, l.e, t))
  }

  function CloseRight(r: Rights, t: Tree): Tree {
    if r.NoRight? then t else CloseRight(r.init, Node(t, r.e, r.rt))
  }

  lemma {:induction false} CloseLeftOrder(l: Lefts, t: Tree)
    ensures InOrder(CloseLeft(l, t)) == LeftOrder(l) + InOrder(t)
    decreases l
  {
    if l.LinkLeft? {
      CloseLeftOrder(l.init, Node(l.lt, l.e, t));
      Shifted(LeftOrder(l.init), InOrder(l.lt), l.e, InOrder(t), []);
    }
  }

  lemma {:induction false} CloseRightOrder(r: Rights, t: Tree)
    ensures InOrder(CloseRight(r, t)) == InOrder(t) + RightOrder(r)
    decreases r
  {
    if r.LinkRight? {
      CloseRightOrder(r.init, Node(t, r.e, r.rt));
      Shifted([], InOrder(t), r.e, InOrder(r.rt), RightOrder(r.init));
    }
  }

  function RotatedRight(t: Tree): Tree
    requires t.Node? && t.left.Node?
  {
    Node(t.left.left, t.left.e, Node(t.left.right, t.e, t.right))
  }

  function RotatedLeft(t: Tree): Tree
    requires t.Node? && t.right.Node?
  {
    Node(Node(t.left, t.e, t.right.left), t.right.e, t.right.right)
  }

  lemma RightKeepsOrder(t: Tree)
    requires t.Node? && t.left.Node?
    ensures InOrder(RotatedRight(t)) == InOrder(t) && Size(RotatedRight(t)) == Size(t)
  {
    var l := t.left;
    Regrouped(InOrder(l.left), l.e, InOrder(l.right), t.e, InOrder(t.right));
    assert InOrder(l) == InOrder(l.left) + [l.e] + InOrder(l.right);
    assert InOrder(RotatedRight(t).right) == InOrder(l.right) + [t.e] + InOrder(t.right);
  }

  lemma LeftKeepsOrder(t: Tree)
    requires t.Node? && t.right.Node?
    ensures InOrder(RotatedLeft(t)) == InOrder(t) && Size(RotatedLeft(t)) == Size(t)
  {
    var r := t.right;
    Regrouped(InOrder(t.left), t.e, InOrder(r.left), r.e, InOrder(r.right));
    assert InOrder(r) == InOrder(r.left) + [r.e] + InOrder(r.right);
    assert InOrder(RotatedLeft(t).left) == InOrder(t.left) + [t.e] + InOrder(r.left);
  }

  /** Linking moves the root and its right subtree to the right tree. */
  lemma LinkRightOrder(l: Lefts, t: Tree, r: Rights)
    requires t.Node?
    ensures Spread(l, t.left, LinkRight(r, t.e, t.right)) == Spread(l, t, r)
  {
    Shifted(LeftOrder(l), InOrder(t.left), t.e, InOrder(t.right), RightOrder(r));
  }

  lemma LinkLeftOrder(l: Lefts, t: Tree, r: Rights)
    requires t.Node?
    ensures Spread(LinkLeft(l, t.left, t.e), t.right, r) == Spread(l, t, r)
  {
    Shifted(LeftOrder(l), InOrder(t.left), t.e, InOrder(t.right), RightOrder(r));
  }

  /** The root between the two closed trees. */
  function Assembled(l: Lefts, t: Tree, r: Rights): Tree
    requires t.Node?
  {
    Node(CloseLeft(l, t.left), t.e, CloseRight(r, t.right))
  }

  lemma AssembledOrder(l: Lefts, t: Tree, r: Rights)
    requires t.Node?
    ensures InOrder(Assembled(l, t, r)) == Spread(l, t, r)
  {
    CloseLeftOrder(l, t.left);
    CloseRightOrder(r, t.right);
    Shifted(LeftOrder(l), InOrder(t.left), t.e, InOrder(t.right), RightOrder(r));
    Flattened(LeftOrder(l), InOrder(t.left), t.e, InOrder(t.right), RightOrder(r));
  }

  // ------------------------------------------------------------------- search

  /** The root of `t` splits what is in hand. */
  lemma RootSplits(l: Lefts, t: Tree, r: Rights)
    requires t.Node? && Ascending(Spread(l, t, r))
    ensures AllBelow(LeftOrder(l), t.e.key) && AllBelow(InOrder(t.left), t.e.key)
    ensures AllAbove(RightOrder(r), t.e.key) && AllAbove(InOrder(t.right), t.e.key)
  {
    var a, b := LeftOrder(l) + InOrder(t.left), InOrder(t.right) + RightOrder(r);
    Flattened(LeftOrder(l), InOrder(t.left), t.e, InOrder(t.right), RightOrder(r));
    SplitAscending(a, t.e, b);
    assert forall e | e in LeftOrder(l) || e in InOrder(t.left) :: e in a;
    assert forall e | e in RightOrder(r) || e in InOrder(t.right) :: e in b;
  }

  lemma LinkedAbove(l: Lefts, t: Tree, r: Rights, k: int)
    requires t.Node? && Ascending(Spread(l, t, r)) && k < t.e.key && AllAbove(RightOrder(r), k)
    ensures AllAbove(RightOrder(LinkRight(r, t.e, t.right)), k)
  {
    RootSplits(l, t, r);
  }

  lemma LinkedBelow(l: Lefts, t: Tree, r: Rights, k: int)
    requires t.Node? && Ascending(Spread(l, t, r)) && t.e.key < k && AllBelow(LeftOrder(l), k)
    ensures AllBelow(LeftOrder(LinkLeft(l, t.left, t.e)), k)
  {
    RootSplits(l, t, r);
  }

  /** The loop may stop here: the key is found, or has no subtree left to be in. */
  predicate Final(t: Tree, k: int) {
    t.Node? && (k == t.e.key || (k < t.e.key && t.left.Leaf?) || (k > t.e.key && t.right.Leaf?))
  }

  /** `k` lies at the root of `t`, or next to it. */
  ghost predicate RootedAt(t: Tree, k: int) {
    t.Node? && AllBelow(InOrder(t.left), k) && AllAbove(InOrder(t.right), k)
  }

  lemma FinalIsRooted(l: Lefts, t: Tree, r: Rights, k: int)
    requires Ascending(Spread(l, t, r)) && Final(t, k)
    requires AllBelow(LeftOrder(l), k) && AllAbove(RightOrder(r), k)
    ensures RootedAt(Assembled(l, t, r), k)
  {
    RootSplits(l, t, r);
    CloseLeftOrder(l, t.left);
    CloseRightOrder(r, t.right);
  }

  /** Then the root has the key exactly when some node has. */
  lemma RootedHasKey(t: Tree, k: int)
    requires RootedAt(t, k)
    ensures HasKey(InOrder(t), k) <==> t.e.key == k
  {
    if t.e.key == k { assert t.e in InOrder(t); }
  }
}
