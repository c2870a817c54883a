/** The red-black trees of include/sys/tree.h, pointer write by pointer write. */
module RbTree {
  import opened TreeKeys
  import opened RbShape
  import opened RbHeap
  import opened RbBalance
  import opened RbEdit
  import opened RbOrder

  class Head {
    /** The nodes in memory, in the tree or not. */
    var nodes: Nodes
    var root: Ref
    /** The tree the pointers stand for. */
    ghost var tree: Tree

    ghost predicate Linked()
      reads this
    {
      NULL !in nodes && Holds(nodes, root, tree)
    }

    /** RB_COLOR(x) = colour, for the node at the place (t, p). */
    method SetColor(x: Ref, red: bool, ghost t: Tree, ghost p: Path)
      requires Linked() && tree == Plug(p, t) && t.Node? && t.e.id == x
      modifies this
      ensures Linked() && SameKeys(old(nodes), nodes)
      ensures tree == Plug(p, Painted(t, red)) && InOrder(tree) == old(InOrder(tree))
    {
      AtPlug(nodes, root, t, p);
      PaintedAt(nodes, root, t, p, red);
      nodes := nodes[x := nodes[x].(red := red)];
      tree := Plug(p, Painted(t, red));
      AtPlug(nodes, root, Painted(t, red), p);
      PlugOrder(p, t);
      PlugOrder(p, Painted(t, red));
    }

    method RotateLeft(elm: Ref, ghost t: Tree, ghost p: Path) returns (tmp: Ref)
      requires Linked() && tree == Plug(p, t) && t.Node? && t.right.Node? && t.e.id == elm
      modifies this
      ensures Linked() && SameKeys(old(nodes), nodes) && tmp == t.right.e.id
      ensures tree == Plug(p, RotatedLeft(t)) && InOrder(tree) == old(InOrder(tree))
    {
      AtPlug(nodes, root, t, p);
      TurnLeftReady(nodes, root, t, p);
      tmp := TurnLeft(elm);
      TurnedLeftAt(old(nodes), old(root), nodes, root, t, p);
      TurnedLeftKeys(old(nodes), old(root), nodes, root, elm, tmp, old(nodes)[tmp].left, Above(p));
      tree := Plug(p, RotatedLeft(t));
      AtPlug(nodes, root, RotatedLeft(t), p);
      PlugOrder(p, t);
      PlugOrder(p, RotatedLeft(t));
      LeftKeepsOrder(t);
    }

    /** The pointers of RB_ROTATE_LEFT. */
    method TurnLeft(elm: Ref) returns (tmp: Ref)
      requires NULL !in nodes && elm in nodes && nodes[elm].right in nodes
      requires var y := nodes[elm].right;
               var b, q := nodes[y].left, nodes[elm].parent;
               (b != NULL ==> b in nodes) && (q != NULL ==> q in nodes) && Distinct4(elm, y, b, q)
      modifies this`nodes, this`root
      ensures nodes.Keys == old(nodes.Keys) && tmp == old(nodes[elm].right)
      ensures TurnedLeft(old(nodes), old(root), nodes, root, elm, tmp, old(nodes[tmp].left), old(nodes[elm].parent))
    {
      tmp := nodes[elm].right;
      var inner := nodes[tmp].left;
      nodes := nodes[elm := nodes[elm].(right := inner)];
      if inner != NULL {
        nodes := nodes[inner := nodes[inner].(parent := elm)];
      }
      var above := nodes[elm].parent;
      nodes := nodes[tmp := nodes[tmp].(parent := above)];
      if above != NULL {
        if elm == nodes[above].left {
          nodes := nodes[above := nodes[above].(left := tmp)];
        } else {
          nodes := nodes[above := nodes[above].(right := tmp)];
        }
      } else {
        root := tmp;
      }
      nodes := nodes[tmp := nodes[tmp].(left := elm)];
      nodes := nodes[elm := nodes[elm].(parent := tmp)];
    }

    method RotateRight(elm: Ref, ghost t: Tree, ghost p: Path) returns (tmp: Ref)
      requires Linked() && tree == Plug(p, t) && t.Node? && t.left.Node? && t.e.id == elm
      modifies this
      ensures Linked() && SameKeys(old(nodes), nodes) && tmp == t.left.e.id
      ensures tree == Plug(p, RotatedRight(t)) && InOrder(tree) == old(InOrder(tree))
    {
      AtPlug(nodes, root, t, p);
      TurnRightReady(nodes, root, t, p);
      tmp := TurnRight(elm);
      TurnedRightAt(old(nodes), old(root), nodes, root, t, p);
      TurnedRightKeys(old(nodes), old(root), nodes, root, elm, tmp, old(nodes)[tmp].right, Above(p));
      tree := Plug(p, RotatedRight(t));
      AtPlug(nodes, root, RotatedRight(t), p);
      PlugOrder(p, t);
      PlugOrder(p, RotatedRight(t));
      RightKeepsOrder(t);
    }

    /** The pointers of RB_ROTATE_RIGHT. */
    method TurnRight(elm: Ref) returns (tmp: Ref)
      requires NULL !in nodes && elm in nodes && nodes[elm].left in nodes
      requires var y := nodes[elm].left;
               var b, q := nodes[y].right, nodes[elm].parent;
               (b != NULL ==> b in nodes) && (q != NULL ==> q in nodes) && Distinct4(elm, y, b, q)
      modifies this`nodes, this`root
      ensures nodes.Keys == old(nodes.Keys) && tmp == old(nodes[elm].left)
      ensures TurnedRight(old(nodes), old(root), nodes, root, elm, tmp, old(nodes[tmp].right), old(nodes[elm].parent))
    {
      tmp := nodes[elm].left;
      var inner := nodes[tmp].right;
      nodes := nodes[elm := nodes[elm].(left := inner)];
      if inner != NULL {
        nodes := nodes[inner := nodes[inner].(parent := elm)];
      }
      var above := nodes[elm].parent;
      nodes := nodes[tmp := nodes[tmp].(parent := above)];
      if above != NULL {
        if elm == nodes[above].left {
          nodes := nodes[above := nodes[above].(left := tmp)];
        } else {
          nodes := nodes[above := nodes[above].(right := tmp)];
        }
      } else {
        root := tmp;
      }
      nodes := nodes[tmp := nodes[tmp].(right := elm)];
      nodes := nodes[elm := nodes[elm].(parent := tmp)];
    }

    /** The body of the loop when the parent is a left child. */
    method RaiseFromLeft(elm: Ref, parent: Ref, gparent: Ref, ghost t: Tree, ghost p: Path)
      returns (elm': Ref, ghost t': Tree, ghost p': Path)
      requires Linked() && tree == Plug(p, t) && Rising(t, p) && RedAbove(p) && p.up.InLeft? && !p.up.red
      requires elm == t.e.id && parent == p.e.id && gparent == p.up.e.id
      modifies this
      ensures Linked() && SameKeys(old(nodes), nodes) && InOrder(tree) == old(InOrder(tree))
      ensures tree == Plug(p', t') && Rising(t', p') && elm' == t'.e.id && Depth(p') < Depth(p)
    {
      ghost var g := p.up;
      Here(nodes, root, Join(p, t), g);
      Here(nodes, root, Join(g, Join(p, t)), g.up);
      ghost var uncle := InRight(g.up, Join(p, t), g.e, false);
      var tmp := nodes[gparent].right;
      if g.right.Node? { Here(nodes, root, g.right, uncle); }
      if tmp != NULL && nodes[tmp].red {
        RecoloredRises(t, p);
        SetColor(tmp, false, g.right, uncle);
        SetColor(parent, false, Join(p, t), InLeft(g.up, g.e, false, Painted(g.right, false)));
        t', p' := Recolored(g, Painted(Join(p, t), false)), g.up;
        SetColor(gparent, true, t'.(red := false), p');
        elm' := gparent;
      } else {
        var top := parent;
        elm', t', p' := elm, t, p;
        if nodes[parent].right == elm {
          InnerLeftRises(t, p);
          var _ := RotateLeft(parent, Join(p, t), g);
          t', p' := Node(p.left, p.e, true, t.left), InLeft(g, t.e, true, t.right);
          elm', top := parent, elm;
        }
        OuterLeftRises(t', p');
        SetColor(top, false, Join(p', t'), g);
        SetColor(gparent, true, Node(Join(p', t').(red := false), g.e, false, g.right), g.up);
        var _ := RotateRight(gparent, Node(Join(p', t').(red := false), g.e, true, g.right), g.up);
        p' := InLeft(g.up, p'.e, false, Node(p'.right, g.e, true, g.right));
      }
    }

    /** The body of the loop when the parent is a right child. */
    method RaiseFromRight(elm: Ref, parent: Ref, gparent: Ref, ghost t: Tree, ghost p: Path)
      returns (elm': Ref, ghost t': Tree, ghost p': Path)
      requires Linked() && tree == Plug(p, t) && Rising(t, p) && RedAbove(p) && p.up.InRight? && !p.up.red
      requires elm == t.e.id && parent == p.e.id && gparent == p.up.e.id
      modifies this
      ensures Linked() && SameKeys(old(nodes), nodes) && InOrder(tree) == old(InOrder(tree))
      ensures tree == Plug(p', t') && Rising(t', p') && elm' == t'.e.id && Depth(p') < Depth(p)
    {
      ghost var g := p.up;
      Here(nodes, root, Join(p, t), g);
      Here(nodes, root, Join(g, Join(p, t)), g.up);
      ghost var uncle := InLeft(g.up, g.e, false, Join(p, t));
      var tmp := nodes[gparent].left;
      if g.left.Node? { Here(nodes, root, g.left, uncle); }
      if tmp != NULL && nodes[tmp].red {
        RecoloredRises(t, p);
        SetColor(tmp, false, g.left, uncle);
        SetColor(parent, false, Join(p, t), InRight(g.up, Painted(g.left, false), g.e, false));
        t', p' := Recolored(g, Painted(Join(p, t), false)), g.up;
        SetColor(gparent, true, t'.(red := false), p');
        elm' := gparent;
      } else {
        var top := parent;
        elm', t', p' := elm, t, p;
        if nodes[parent].left == elm {
          InnerRightRises(t, p);
          var _ := RotateRight(parent, Join(p, t), g);
          t', p' := Node(t.right, p.e, true, p.right), InRight(g, t.left, t.e, true);
          elm', top := parent, elm;
        }
        OuterRightRises(t', p');
        SetColor(top, false, Join(p', t'), g);
        SetColor(gparent, true, Node(g.left, g.e, false, Join(p', t').(red := false)), g.up);
        var _ := RotateLeft(gparent, Node(g.left, g.e, true, Join(p', t').(red := false)), g.up);
        p' := InRight(g.up, Node(g.left, g.e, true, p'.left), p'.e, false);
      }
    }

    /** RB_INSERT_COLOR: restores the colours above a new red node. */
    method InsertColor(x: Ref, ghost t0: Tree, ghost p0: Path)
      requires Linked() && tree == Plug(p0, t0) && Rising(t0, p0) && x == t0.e.id
      modifies this
      ensures Linked() && SameKeys(old(nodes), nodes) && InOrder(tree) == old(InOrder(tree))
      ensures RedBlack(tree)
    {
      var elm := x;
      ghost var t, p := t0, p0;
      Here(nodes, root, t, p);
      var parent := nodes[elm].parent;
      if !p.Top? { Here(nodes, root, Join(p, t), p.up); }
      while parent != NULL && nodes[parent].red
        invariant Linked() && SameKeys(old(nodes), nodes) && InOrder(tree) == old(InOrder(tree))
        invariant tree == Plug(p, t) && Rising(t, p) && elm == t.e.id
        invariant parent == Above(p) && (parent == NULL <==> p.Top?)
        invariant parent != NULL ==> parent in nodes && nodes[parent].red == p.red
        decreases Depth(p)
      {
        RedParent(t, p);
        Here(nodes, root, Join(p, t), p.up);
        var gparent := nodes[parent].parent;
        Here(nodes, root, Join(p.up, Join(p, t)), p.up.up);
        if parent == nodes[gparent].left {
          elm, t, p := RaiseFromLeft(elm, parent, gparent, t, p);
        } else {
          elm, t, p := RaiseFromRight(elm, parent, gparent, t, p);
        }
        Here(nodes, root, t, p);
        parent := nodes[elm].parent;
        if !p.Top? { Here(nodes, root, Join(p, t), p.up); }
      }
      RisenIsRedBlack(t, p);
      Here(nodes, root, tree, Top);
      RootHere(nodes, root, tree, Top);
      SetColor(root, false, tree, Top);
    }

    /** A red sibling becomes the grandparent; its inner child is the new sibling. */
    method TurnRedSiblingLeft(tmp: Ref, parent: Ref, ghost t: Tree, ghost p: Path) returns (tmp': Ref, ghost p': Path)
      requires Linked() && tree == Plug(p, t) && Sinking(t, p) && p.InLeft? && Red(p.right)
      requires parent == p.e.id && tmp == p.right.e.id
      modifies this
      ensures Linked() && SameKeys(old(nodes), nodes) && InOrder(tree) == old(InOrder(tree))
      ensures tree == Plug(p', t) && Sinking(t, p') && p'.InLeft? && p'.red && p'.e == p.e && Depth(p') == Depth(p) + 1
      ensures p'.right.Node? && !p'.right.red && tmp' == p'.right.e.id
    {
      ghost var s := p.right;
      RedSiblingLeftSinks(t, p);
      SetColor(tmp, false, s, InRight(p.up, t, p.e, false));
      SetColor(parent, true, Node(t, p.e, false, Painted(s, false)), p.up);
      var _ := RotateLeft(parent, Node(t, p.e, true, Painted(s, false)), p.up);
      p' := InLeft(InLeft(p.up, s.e, false, s.right), p.e, true, s.left);
      Here(nodes, root, Join(p', t), p'.up);
      tmp' := nodes[parent].right;
    }

    /** A red inner child of the sibling takes the sibling's place. */
    method TurnInnerNephewLeft(tmp: Ref, parent: Ref, ghost t: Tree, ghost p: Path) returns (tmp': Ref, ghost p': Path)
      requires Linked() && tree == Plug(p, t) && Sinking(t, p) && p.InLeft?
      requires p.right.Node? && !p.right.red && Red(p.right.left) && !Red(p.right.right)
      requires parent == p.e.id && tmp == p.right.e.id
      modifies this
      ensures Linked() && SameKeys(old(nodes), nodes) && InOrder(tree) == old(InOrder(tree))
      ensures tree == Plug(p', t) && Sinking(t, p') && p'.InLeft? && p'.up == p.up && p'.e == p.e && p'.red == p.red
      ensures p'.right.Node? && !p'.right.red && Red(p'.right.right) && tmp' == p'.right.e.id
    {
      ghost var s, there := p.right, InRight(p.up, t, p.e, p.red);
      InnerNephewLeftSinks(t, p);
      Family(nodes, root, s, there);
      var oleft := nodes[tmp].left;
      if oleft != NULL {
        SetColor(oleft, false, s.left, InLeft(there, s.e, false, s.right));
      }
      SetColor(tmp, true, Node(Painted(s.left, false), s.e, false, s.right), there);
      var _ := RotateRight(tmp, Node(Painted(s.left, false), s.e, true, s.right), there);
      p' := p.(right := InnerRaisedLeft(s));
      Here(nodes, root, Join(p', t), p'.up);
      tmp' := nodes[parent].right;
    }

    /** The sibling takes the parent's place and colour; the removal is done. */
    method TurnOuterNephewLeft(tmp: Ref, parent: Ref, ghost t: Tree, ghost p: Path)
      requires Linked() && tree == Plug(p, t) && Sinking(t, p) && !Red(t) && p.InLeft?
      requires p.right.Node? && !p.right.red && Red(p.right.right)
      requires parent == p.e.id && tmp == p.right.e.id
      modifies this
      ensures Linked() && SameKeys(old(nodes), nodes) && InOrder(tree) == old(InOrder(tree))
      ensures RedBlack(tree)
    {
      ghost var s, s' := p.right, p.right.(red := p.red);
      OuterNephewLeftSettles(t, p);
      Here(nodes, root, Join(p, t), p.up);
      SetColor(tmp, nodes[parent].red, s, InRight(p.up, t, p.e, p.red));
      SetColor(parent, false, Node(t, p.e, p.red, s'), p.up);
      ghost var there := InRight(p.up, t, p.e, false);
      Family(nodes, root, s', there);
      if nodes[tmp].right != NULL {
        SetColor(nodes[tmp].right, false, s.right, InRight(there, s.left, s.e, p.red));
      }
      var _ := RotateLeft(parent, Node(t, p.e, false, s'.(right := Painted(s.right, false))), p.up);
    }

    /** The body of the loop when the short side is the left one. */
    method SinkFromLeft(elm: Ref, parent: Ref, ghost t: Tree, ghost p: Path)
      returns (elm': Ref, parent': Ref, done: bool, ghost t': Tree, ghost p': Path)
      requires Linked() && tree == Plug(p, t) && Sinking(t, p) && !Red(t) && p.InLeft?
      requires elm == IdOf(t) && parent == p.e.id
      modifies this
      ensures Linked() && SameKeys(old(nodes), nodes) && InOrder(tree) == old(InOrder(tree))
      ensures done ==> RedBlack(tree) && elm' == root
      ensures !done ==> tree == Plug(p', t') && Sinking(t', p') && elm' == IdOf(t') && parent' == Above(p')
      ensures !done ==> Weight(t', p') < Weight(t, p)
    {
      done, t', p' := false, t, p;
      SiblingIsNode(t, p);
      Family(nodes, root, Join(p, t), p.up);
      var tmp := nodes[parent].right;
      if nodes[tmp].red {
        tmp, p' := TurnRedSiblingLeft(tmp, parent, t, p);
      }
      ghost var s := p'.right;
      Family(nodes, root, s, InRight(p'.up, t, p'.e, p'.red));
      if (nodes[tmp].left == NULL || !nodes[nodes[tmp].left].red)
         && (nodes[tmp].right == NULL || !nodes[nodes[tmp].right].red) {
        BlackNephewsLeftSink(t, p');
        SetColor(tmp, true, s, InRight(p'.up, t, p'.e, p'.red));
        t', p' := Node(t, p'.e, p'.red, Painted(s, true)), p'.up;
        elm' := parent;
        Here(nodes, root, t', p');
        parent' := nodes[elm'].parent;
      } else {
        if nodes[tmp].right == NULL || !nodes[nodes[tmp].right].red {
          tmp, p' := TurnInnerNephewLeft(tmp, parent, t, p');
        }
        TurnOuterNephewLeft(tmp, parent, t, p');
        elm', parent', done := root, parent, true;
      }
    }

    /** A red sibling becomes the grandparent; its inner child is the new sibling. */
    method TurnRedSiblingRight(tmp: Ref, parent: Ref, ghost t: Tree, ghost p: Path) returns (tmp': Ref, ghost p': Path)
      requires Linked() && tree == Plug(p, t) && Sinking(t, p) && p.InRight? && Red(p.left)
      requires parent == p.e.id && tmp == p.left.e.id
      modifies this
      ensures Linked() && SameKeys(old(nodes), nodes) && InOrder(tree) == old(InOrder(tree))
      ensures tree == Plug(p', t) && Sinking(t, p') && p'.InRight? && p'.red && p'.e == p.e && Depth(p') == Depth(p) + 1
      ensures p'.left.Node? && !p'.left.red && tmp' == p'.left.e.id
    {
      ghost var s := p.left;
      RedSiblingRightSinks(t, p);
      SetColor(tmp, false, s, InLeft(p.up, p.e, false, t));
      SetColor(parent, true, Node(Painted(s, false), p.e, false, t), p.up);
      var _ := RotateRight(parent, Node(Painted(s, false), p.e, true, t), p.up);
      p' := InRight(InRight(p.up, s.left, s.e, false), s.right, p.e, true);
      Here(nodes, root, Join(p', t), p'.up);
      tmp' := nodes[parent].left;
    }

    /** A red inner child of the sibling takes the sibling's place. */
    method TurnInnerNephewRight(tmp: Ref, parent: Ref, ghost t: Tree, ghost p: Path) returns (tmp': Ref, ghost p': Path)
      requires Linked() && tree == Plug(p, t) && Sinking(t, p) && p.InRight?
      requires p.left.Node? && !p.left.red && Red(p.left.right) && !Red(p.left.left)
      requires parent == p.e.id && tmp == p.left.e.id
      modifies this
      ensures Linked() && SameKeys(old(nodes), nodes) && InOrder(tree) == old(InOrder(tree))
      ensures tree == Plug(p', t) && Sinking(t, p') && p'.InRight? && p'.up == p.up && p'.e == p.e && p'.red == p.red
      ensures p'.left.Node? && !p'.left.red && Red(p'.left.left) && tmp' == p'.left.e.id
    {
      ghost var s, there := p.left, InLeft(p.up, p.e, p.red, t);
      InnerNephewRightSinks(t, p);
      Family(nodes, root, s, there);
      var oright := nodes[tmp].right;
      if oright != NULL {
        SetColor(oright, false, s.right, InRight(there, s.left, s.e, false));
      }
      SetColor(tmp, true, Node(s.left, s.e, false, Painted(s.right, false)), there);
      var _ := RotateLeft(tmp, Node(s.left, s.e, true, Painted(s.right, false)), there);
      p' := p.(left := InnerRaisedRight(s));
      Here(nodes, root, Join(p', t), p'.up);
      tmp' := nodes[parent].left;
    }

    /** The sibling takes the parent's place and colour; the removal is done. */
    method TurnOuterNephewRight(tmp: Ref, parent: Ref, ghost t: Tree, ghost p: Path)
      requires Linked() && tree == Plug(p, t) && Sinking(t, p) && !Red(t) && p.InRight?
      requires p.left.Node? && !p.left.red && Red(p.left.left)
      requires parent == p.e.id && tmp == p.left.e.id
      modifies this
      ensures Linked() && SameKeys(old(nodes), nodes) && InOrder(tree) == old(InOrder(tree))
      ensures RedBlack(tree)
    {
      ghost var s, s' := p.left, p.left.(red := p.red);
      OuterNephewRightSettles(t, p);
      Here(nodes, root, Join(p, t), p.up);
      SetColor(tmp, nodes[parent].red, s, InLeft(p.up, p.e, p.red, t));
      SetColor(parent, false, Node(s', p.e, p.red, t), p.up);
      ghost var there := InLeft(p.up, p.e, false, t);
      Family(nodes, root, s', there);
      if nodes[tmp].left != NULL {
        SetColor(nodes[tmp].left, false, s.left, InLeft(there, s.e, p.red, s.right));
      }
      var _ := RotateRight(parent, Node(s'.(left := Painted(s.left, false)), p.e, false, t), p.up);
    }

    /** The body of the loop when the short side is the right one. */
    method SinkFromRight(elm: Ref, parent: Ref, ghost t: Tree, ghost p: Path)
      returns (elm': Ref, parent': Ref, done: bool, ghost t': Tree, ghost p': Path)
      requires Linked() && tree == Plug(p, t) && Sinking(t, p) && !Red(t) && p.InRight?
      requires elm == IdOf(t) && parent == p.e.id
      modifies this
      ensures Linked() && SameKeys(old(nodes), nodes) && InOrder(tree) == old(InOrder(tree))
      ensures done ==> RedBlack(tree) && elm' == root
      ensures !done ==> tree == Plug(p', t') && Sinking(t', p') && elm' == IdOf(t') && parent' == Above(p')
      ensures !done ==> Weight(t', p') < Weight(t, p)
    {
      done, t', p' := false, t, p;
      SiblingIsNode(t, p);
      Family(nodes, root, Join(p, t), p.up);
      var tmp := nodes[parent].left;
      if nodes[tmp].red {
        tmp, p' := TurnRedSiblingRight(tmp, parent, t, p);
      }
      ghost var s := p'.left;
      Family(nodes, root, s, InLeft(p'.up, p'.e, p'.red, t));
      if (nodes[tmp].right == NULL || !nodes[nodes[tmp].right].red)
         && (nodes[tmp].left == NULL || !nodes[nodes[tmp].left].red) {
        BlackNephewsRightSink(t, p');
        SetColor(tmp, true, s, InLeft(p'.up, p'.e, p'.red, t));
        t', p' := Node(Painted(s, true), p'.e, p'.red, t), p'.up;
        elm' := parent;
        Here(nodes, root, t', p');
        parent' := nodes[elm'].parent;
      } else {
        if nodes[tmp].left == NULL || !nodes[nodes[tmp].left].red {
          tmp, p' := TurnInnerNephewRight(tmp, parent, t, p');
        }
        TurnOuterNephewRight(tmp, parent, t, p');
        elm', parent', done := root, parent, true;
      }
    }

    /** RB_REMOVE_COLOR: makes up for the black node that was taken out above
        the subtree with root `x`. */
    method RemoveColor(above: Ref, x: Ref, ghost t0: Tree, ghost p0: Path)
      requires Linked() && tree == Plug(p0, t0) && Sinking(t0, p0) && x == IdOf(t0) && above == Above(p0)
      modifies this
      ensures Linked() && SameKeys(old(nodes), nodes) && InOrder(tree) == old(InOrder(tree))
      ensures RedBlack(tree)
    {
      var elm, parent, done := x, above, false;
      ghost var t, p := t0, p0;
      if t.Node? { Here(nodes, root, t, p); }
      while (elm == NULL || !nodes[elm].red) && elm != root
        invariant Linked() && SameKeys(old(nodes), nodes) && InOrder(tree) == old(InOrder(tree))
        invariant tree == Plug(p, t) && Sinking(t, p) && elm == IdOf(t) && parent == Above(p)
        invariant elm == NULL <==> t.Leaf?
        invariant elm != NULL ==> elm in nodes && nodes[elm].red == t.red
        decreases Weight(t, p)
      {
        RootHere(nodes, root, t, p);
        Here(nodes, root, Join(p, t), p.up);
        SiblingIsNode(t, p);
        if nodes[parent].left == elm {
          elm, parent, done, t, p := SinkFromLeft(elm, parent, t, p);
        } else {
          elm, parent, done, t, p := SinkFromRight(elm, parent, t, p);
        }
        if done { break; }
        if t.Node? { Here(nodes, root, t, p); }
      }
      if done {
        t, p := tree, Top;
      } else {
        RootHere(nodes, root, t, p);
        SunkIsRedBlack(t, p);
      }
      if t.Node? { Here(nodes, root, t, p); }
      RootHere(nodes, root, tree, Top);
      if elm != NULL {
        SetColor(elm, false, t, p);
      }
    }

    /** The tree is ordered by key and coloured as a red-black tree. */
    ghost predicate Valid()
      reads this
    {
      Linked() && RedBlack(tree) && Ascending(InOrder(tree))
    }

    /** RB_INIT, over the nodes that memory holds. */
    constructor (memory: Nodes)
      requires NULL !in memory
      ensures Valid() && InOrder(tree) == [] && nodes == memory
    {
      nodes, root, tree := memory, NULL, Leaf;
    }

    /** RB_INSERT: hangs `elm` in, unless a node with its key is there. */
    method Insert(elm: Ref) returns (r: Ref, ghost i: nat)
      requires Valid() && elm in nodes
      modifies this
      ensures Valid() && SameKeys(old(nodes), nodes)
      ensures r == NULL <==> !old(HasKey(InOrder(tree), nodes[elm].key))
      ensures r == NULL ==> i <= |old(InOrder(tree))|
      ensures r == NULL ==> InOrder(tree) == With(old(InOrder(tree)), i, Elem(elm, old(nodes[elm].key)))
      ensures r != NULL ==> Elem(r, nodes[elm].key) in InOrder(tree)
      ensures r != NULL ==> tree == old(tree) && nodes == old(nodes) && root == old(root)
    {
      var key := nodes[elm].key;
      var parent, comp := NULL, 0;
      var tmp := root;
      ghost var t, p := tree, Top;
      while tmp != NULL
        invariant tree == old(tree) && nodes == old(nodes) && root == old(root)
        invariant tree == Plug(p, t) && Between(p, key) && tmp == IdOf(t) && parent == Above(p)
        invariant (p.InLeft? ==> comp < 0) && (p.InRight? ==> comp > 0)
        invariant p.Top? <==> parent == NULL
        invariant t.Node? ==> t.e.id != NULL
        decreases t
      {
        Family(nodes, root, t, p);
        parent := tmp;
        comp := key - nodes[tmp].key;
        if comp < 0 {
          GoLeft(t, p, key);
          tmp := nodes[tmp].left;
          t, p := t.left, InLeft(p, t.e, t.red, t.right);
        } else if comp > 0 {
          GoRight(t, p, key);
          tmp := nodes[tmp].right;
          t, p := t.right, InRight(p, t.left, t.e, t.red);
        } else {
          PlaceOrder(t, p);
          i := 0;
          return tmp, i;
        }
      }
      NotThere(p, key);
      KeylessOutside(nodes, tree, elm);
      Hang(elm, parent, comp, p);
      NewNode(p, Elem(elm, key));
      WithAt(Before(p), Elem(elm, key), After(p));
      InsertColor(elm, Node(Leaf, Elem(elm, key), true, Leaf), p);
      r, i := NULL, |Before(p)|;
    }

    /** RB_SET and the link from the parent. */
    method Hang(elm: Ref, parent: Ref, comp: int, ghost p: Path)
      requires Linked() && RedBlack(tree) && tree == Plug(p, Leaf) && elm in nodes && elm !in Ids(tree)
      requires parent == Above(p) && (p.InLeft? ==> comp < 0) && (p.InRight? ==> comp > 0)
      modifies this
      ensures Linked() && SameKeys(old(nodes), nodes)
      ensures var t := Node(Leaf, Elem(elm, old(nodes[elm].key)), true, Leaf);
              tree == Plug(p, t) && Rising(t, p)
    {
      AtPlug(nodes, root, Leaf, p);
      PlugIds(p, Leaf);
      PlugRedBlack(p, Leaf);
      nodes := nodes[elm := Rec(NULL, NULL, parent, true, nodes[elm].key)];
      if parent != NULL {
        if comp < 0 {
          nodes := nodes[parent := nodes[parent].(left := elm)];
        } else {
          nodes := nodes[parent := nodes[parent].(right := elm)];
        }
      } else {
        root := elm;
      }
      ghost var t := Node(Leaf, Elem(elm, old(nodes[elm].key)), true, Leaf);
      HungAt(old(nodes), old(root), nodes, root, p, elm);
      tree := Plug(p, t);
      AtPlug(nodes, root, t, p);
    }

    /** Puts the only child of `elm`, or NULL, in its place. */
    method Lift(elm: Ref, child: Ref, ghost t: Tree, ghost c: Tree, ghost p: Path)
      requires Linked() && tree == Plug(p, t) && OnlyChild(t, c) && elm == t.e.id && child == IdOf(c)
      modifies this
      ensures Linked() && SameKeys(old(nodes), nodes) && tree == Plug(p, c) && elm !in Ids(tree)
      ensures elm in nodes && nodes[elm] == old(nodes)[elm]
    {
      AtPlug(nodes, root, t, p);
      Family(nodes, root, t, p);
      LiftReady(nodes, root, t, c, p);
      MoveUp(elm, child);
      LiftedAt(old(nodes), old(root), nodes, root, t, c, p);
      tree := Plug(p, c);
      AtPlug(nodes, root, c, p);
      PlugIds(p, c);
    }

    /** The pointers that put `child` below the parent of `elm`. */
    method MoveUp(elm: Ref, child: Ref)
      requires NULL !in nodes && elm in nodes
      requires child != NULL ==> child in nodes && child != elm && child != nodes[elm].parent
      requires var q := nodes[elm].parent; q != NULL ==> q in nodes && q != elm
      modifies this`nodes, this`root
      ensures SameKeys(old(nodes), nodes) && nodes[elm] == old(nodes[elm])
      ensures Lifted(old(nodes), old(root), nodes, root, elm, child, old(nodes[elm].parent))
    {
      var parent := nodes[elm].parent;
      if child != NULL {
        nodes := nodes[child := nodes[child].(parent := parent)];
      }
      if parent != NULL {
        if nodes[parent].left == elm {
          nodes := nodes[parent := nodes[parent].(left := child)];
        } else {
          nodes := nodes[parent := nodes[parent].(right := child)];
        }
      } else {
        root := child;
      }
    }

    /** Puts `elm`, no longer in the tree, in the place of `x`. */
    method Replace(x: Ref, elm: Ref, ghost t: Tree, ghost p: Path)
      requires Linked() && tree == Plug(p, t) && t.Node? && t.left.Node? && x == t.e.id
      requires elm in nodes && elm !in Ids(tree)
      modifies this
      ensures Linked() && SameKeys(old(nodes), nodes)
      ensures tree == Plug(p, t.(e := Elem(elm, old(nodes[elm].key))))
    {
      AtPlug(nodes, root, t, p);
      PlugIds(p, t);
      ReplaceReady(nodes, root, t, p);
      CopyFields(x, elm);
      ReplacedAt(old(nodes), old(root), nodes, root, t, p, elm);
      ReplacedKeys(old(nodes), old(root), nodes, root, x, elm, IdOf(t.left), IdOf(t.right), Above(p));
      tree := Plug(p, t.(e := Elem(elm, old(nodes[elm].key))));
      AtPlug(nodes, root, t.(e := Elem(elm, old(nodes[elm].key))), p);
    }

    /** The pointers that put `elm` between the neighbours of `x`. */
    method CopyFields(x: Ref, elm: Ref)
      requires NULL !in nodes && x in nodes && elm in nodes && elm != x
      requires var l, r, q := nodes[x].left, nodes[x].right, nodes[x].parent;
               && l in nodes && l != x && l != elm && l != r && l != q
               && (r != NULL ==> r in nodes && r != x && r != elm && r != q)
               && (q != NULL ==> q in nodes && q != x && q != elm)
      modifies this`nodes, this`root
      ensures nodes.Keys == old(nodes.Keys)
      ensures var was := old(nodes[x]);
              Replaced(old(nodes), old(root), nodes, root, x, elm, was.left, was.right, was.parent)
    {
      nodes := nodes[elm := nodes[x].(key := nodes[elm].key)];
      var parent := nodes[x].parent;
      if parent != NULL {
        if nodes[parent].left == x {
          nodes := nodes[parent := nodes[parent].(left := elm)];
        } else {
          nodes := nodes[parent := nodes[parent].(right := elm)];
        }
      } else {
        root := elm;
      }
      var left, right := nodes[x].left, nodes[x].right;
      nodes := nodes[left := nodes[left].(parent := elm)];
      if right != NULL {
        nodes := nodes[right := nodes[right].(parent := elm)];
      }
    }

    /** The leftmost node of the right subtree of the node at (t, p). */
    method Leftmost(start: Ref, ghost t: Tree, ghost p: Path) returns (elm: Ref, ghost s: Tree, ghost q: Path)
      requires Linked() && tree == Plug(p, t) && t.Node? && start == t.e.id
      ensures t == Plug(q, s) && AllLeft(q) && s.Node? && s.left.Leaf? && elm == s.e.id
      ensures tree == Plug(Append(q, p), s)
    {
      elm, s, q := start, t, Top;
      Family(nodes, root, t, p);
      while nodes[elm].left != NULL
        invariant t == Plug(q, s) && AllLeft(q) && s.Node? && elm == s.e.id && tree == Plug(Append(q, p), s)
        invariant elm in nodes && nodes[elm].left == IdOf(s.left)
        invariant nodes[elm].left == NULL <==> s.left.Leaf?
        decreases s
      {
        elm := nodes[elm].left;
        s, q := s.left, InLeft(q, s.e, s.red, s.right);
        Family(nodes, root, s, Append(q, p));
      }
    }

    /** RB_REMOVE: the order loses the one element of `x`. */
    method Remove(x: Ref) returns (r: Ref, ghost i: nat)
      requires Linked() && RedBlack(tree) && x in Ids(tree)
      modifies this
      ensures Linked() && RedBlack(tree) && SameKeys(old(nodes), nodes) && r == x
      ensures i < |old(InOrder(tree))| && old(InOrder(tree))[i].id == x
      ensures InOrder(tree) == Without(old(InOrder(tree)), i) && x !in Ids(tree)
      ensures old(Ascending(InOrder(tree))) ==> Ascending(InOrder(tree))
    {
      ghost var t, p := Locate(tree, Top, x);
      Family(nodes, root, t, p);
      r := x;
      if nodes[x].left == NULL {
        i := RemoveOne(x, nodes[x].right, t, t.right, p);
      } else if nodes[x].right == NULL {
        i := RemoveOne(x, nodes[x].left, t, t.left, p);
      } else {
        i := RemoveTwo(x, t, p);
      }
      GoneFrom(old(tree), tree, i);
      if old(Ascending(InOrder(tree))) { WithoutAscending(old(InOrder(tree)), i); }
    }

    /** RB_REMOVE of a node with at most one child. */
    method RemoveOne(x: Ref, child: Ref, ghost t: Tree, ghost c: Tree, ghost p: Path) returns (ghost i: nat)
      requires Linked() && RedBlack(tree) && tree == Plug(p, t) && OnlyChild(t, c) && x == t.e.id && child == IdOf(c)
      modifies this
      ensures Linked() && RedBlack(tree) && SameKeys(old(nodes), nodes)
      ensures i < |old(InOrder(tree))| && old(InOrder(tree))[i] == t.e
      ensures InOrder(tree) == Without(old(InOrder(tree)), i)
    {
      ghost var a, b := Before(p) + InOrder(t.left), InOrder(t.right) + After(p);
      OnlyChildOrder(t, c, p);
      WithoutAt(a, t.e, b);
      TakenOut(t, c, p);
      Family(nodes, root, t, p);
      var parent, red := nodes[x].parent, nodes[x].red;
      Lift(x, child, t, c, p);
      if !red {
        RemoveColor(parent, child, c, p);
      }
      i := |a|;
    }

    /** RB_REMOVE of a node with two children: its successor takes its place. */
    method RemoveTwo(x: Ref, ghost t: Tree, ghost p: Path) returns (ghost i: nat)
      requires Linked() && RedBlack(tree) && tree == Plug(p, t) && t.Node? && t.left.Node? && t.right.Node? &&
               x == t.e.id
      modifies this
      ensures Linked() && RedBlack(tree) && SameKeys(old(nodes), nodes)
      ensures i < |old(InOrder(tree))| && old(InOrder(tree))[i] == t.e
      ensures InOrder(tree) == Without(old(InOrder(tree)), i)
    {
      Family(nodes, root, t, p);
      ghost var below := InRight(p, t.left, t.e, t.red);
      var elm; ghost var s, q;
      elm, s, q := Leftmost(nodes[x].right, t.right, below);
      ghost var a, b := SuccessorOrder(p, t.left, t.e, t.red, q, s.e, s.red, s.right);
      WithoutAt(a, t.e, b);
      i := |a|;
      TakenOut(s, s.right, Append(q, below));
      Family(nodes, root, s, Append(q, below));
      var child, parent, red := nodes[elm].right, nodes[elm].parent, nodes[elm].red;
      SuccessorParent(nodes, root, t, p, q, s);
      Lift(elm, child, s, s.right, Append(q, below));
      PlugAppend(q, below, s.right);
      if parent == x {
        parent := elm;
      }
      ghost var t' := t.(right := Plug(q, s.right));
      Replace(x, elm, t', p);
      ghost var below' := InRight(p, t.left, s.e, t.red);
      PlugAppend(q, below', s.right);
      if !red {
        OtherNodeSinks(q, p, t.left, t.e, s.e, t.red, Blacks(s.right) + 1);
        RemoveColor(parent, child, s.right, Append(q, below'));
      } else {
        OtherNodeRedBlack(p, t', s.e);
      }
    }

    // ---------------------------------------------------------------- queries

    /** RB_FIND. */
    method Find(key: int) returns (tmp: Ref)
      requires Valid()
      ensures tmp == NULL <==> !HasKey(InOrder(tree), key)
      ensures tmp != NULL ==> Elem(tmp, key) in InOrder(tree)
    {
      tmp := root;
      ghost var t, p := tree, Top;
      while tmp != NULL
        invariant tree == Plug(p, t) && Between(p, key) && tmp == IdOf(t)
        invariant t.Node? ==> t.e.id != NULL
        decreases t
      {
        Family(nodes, root, t, p);
        if key < nodes[tmp].key {
          GoLeft(t, p, key);
          tmp := nodes[tmp].left;
          t, p := t.left, InLeft(p, t.e, t.red, t.right);
        } else if key > nodes[tmp].key {
          GoRight(t, p, key);
          tmp := nodes[tmp].right;
          t, p := t.right, InRight(p, t.left, t.e, t.red);
        } else {
          PlaceOrder(t, p);
          return;
        }
      }
      NotThere(p, key);
    }

    /** RB_NFIND: the first node whose key is not below `key`. */
    method NFind(key: int) returns (res: Ref, ghost i: nat)
      requires Valid()
      ensures i <= |InOrder(tree)| && res == FirstId(InOrder(tree)[i..])
      ensures forall j | 0 <= j < |InOrder(tree)| :: InOrder(tree)[j].key < key <==> j < i
    {
      var tmp := root;
      res := NULL;
      ghost var t, p := tree, Top;
      while tmp != NULL
        invariant tree == Plug(p, t) && Between(p, key) && tmp == IdOf(t) && res == FirstId(After(p))
        invariant t.Node? ==> t.e.id != NULL
        decreases t
      {
        Family(nodes, root, t, p);
        if key < nodes[tmp].key {
          GoLeft(t, p, key);
          res := tmp;
          tmp := nodes[tmp].left;
          t, p := t.left, InLeft(p, t.e, t.red, t.right);
        } else if key > nodes[tmp].key {
          GoRight(t, p, key);
          tmp := nodes[tmp].right;
          t, p := t.right, InRight(p, t.left, t.e, t.red);
        } else {
          i := FirstAt(t, p);
          return tmp, i;
        }
      }
      NotThere(p, key);
      i := FirstNotBelow(Before(p), After(p), key, InOrder(tree));
    }

    /** RB_NEXT: the node that follows in the order. */
    method Next(x: Ref) returns (elm: Ref, ghost i: nat)
      requires Linked() && x in Ids(tree)
      ensures i < |InOrder(tree)| && InOrder(tree)[i].id == x
      ensures elm == FirstId(InOrder(tree)[i + 1..])
    {
      ghost var t, p := Locate(tree, Top, x);
      PlaceOrder(t, p);
      Family(nodes, root, t, p);
      elm := x;
      ghost var a := Before(p) + InOrder(t.left);
      i := |a|;
      assert InOrder(tree)[i + 1..] == InOrder(t.right) + After(p);
      if nodes[elm].right != NULL {
        elm := nodes[elm].right;
        ghost var s, q := t.right, InRight(p, t.left, t.e, t.red);
        Family(nodes, root, s, q);
        while nodes[elm].left != NULL
          invariant tree == Plug(q, s) && s.Node? && elm == s.e.id && elm in nodes
          invariant nodes[elm].left == IdOf(s.left) && (nodes[elm].left == NULL <==> s.left.Leaf?)
          invariant FirstId(InOrder(s)) == FirstId(InOrder(t.right))
          decreases s
        {
          FirstOf(s);
          elm := nodes[elm].left;
          s, q := s.left, InLeft(q, s.e, s.red, s.right);
          Family(nodes, root, s, q);
        }
        FirstOf(s);
        FirstOf(t.right);
      } else {
        elm := ClimbNext(elm, t, p);
      }
    }

    /** Up to the first ancestor that follows. */
    method ClimbNext(x: Ref, ghost t0: Tree, ghost p0: Path) returns (elm: Ref)
      requires Linked() && tree == Plug(p0, t0) && t0.Node? && x == t0.e.id
      ensures elm == FirstId(After(p0))
    {
      elm := x;
      ghost var t, p := t0, p0;
      Family(nodes, root, t, p);
      if !p.Top? { Family(nodes, root, Join(p, t), p.up); }
      if nodes[elm].parent != NULL && elm == nodes[nodes[elm].parent].left {
        elm := nodes[elm].parent;
      } else {
        while nodes[elm].parent != NULL && elm == nodes[nodes[elm].parent].right
          invariant tree == Plug(p, t) && t.Node? && elm == t.e.id && After(p) == After(p0) && elm in nodes
          invariant nodes[elm].parent == Above(p) && (p.Top? <==> Above(p) == NULL)
          invariant !p.Top? ==> Above(p) in nodes && nodes[Above(p)].right == IdOf(Join(p, t).right)
          invariant !p.Top? ==> IdOf(Join(p, t).left) != IdOf(Join(p, t).right)
          decreases Depth(p)
        {
          elm := nodes[elm].parent;
          t, p := Join(p, t), p.up;
          Family(nodes, root, t, p);
          if !p.Top? { Family(nodes, root, Join(p, t), p.up); }
        }
        elm := nodes[elm].parent;
      }
    }

    /** RB_PREV: the node that precedes in the order. */
    method Prev(x: Ref) returns (elm: Ref, ghost i: nat)
      requires Linked() && x in Ids(tree)
      ensures i < |InOrder(tree)| && InOrder(tree)[i].id == x
      ensures elm == LastId(InOrder(tree)[..i])
    {
      ghost var t, p := Locate(tree, Top, x);
      PlaceOrder(t, p);
      Family(nodes, root, t, p);
      elm := x;
      ghost var a := Before(p) + InOrder(t.left);
      i := |a|;
      assert InOrder(tree)[..i] == Before(p) + InOrder(t.left);
      if nodes[elm].left != NULL {
        elm := nodes[elm].left;
        ghost var s, q := t.left, InLeft(p, t.e, t.red, t.right);
        Family(nodes, root, s, q);
        while nodes[elm].right != NULL
          invariant tree == Plug(q, s) && s.Node? && elm == s.e.id && elm in nodes
          invariant nodes[elm].right == IdOf(s.right) && (nodes[elm].right == NULL <==> s.right.Leaf?)
          invariant LastId(InOrder(s)) == LastId(InOrder(t.left))
          decreases s
        {
          LastOf(s);
          elm := nodes[elm].right;
          s, q := s.right, InRight(q, s.left, s.e, s.red);
          Family(nodes, root, s, q);
        }
        LastOf(s);
        LastOf(t.left);
      } else {
        elm := ClimbPrev(elm, t, p);
      }
    }

    /** Up to the first ancestor that precedes. */
    method ClimbPrev(x: Ref, ghost t0: Tree, ghost p0: Path) returns (elm: Ref)
      requires Linked() && tree == Plug(p0, t0) && t0.Node? && x == t0.e.id
      ensures elm == LastId(Before(p0))
    {
      elm := x;
      ghost var t, p := t0, p0;
      Family(nodes, root, t, p);
      if !p.Top? { Family(nodes, root, Join(p, t), p.up); }
      if nodes[elm].parent != NULL && elm == nodes[nodes[elm].parent].right {
        elm := nodes[elm].parent;
      } else {
        while nodes[elm].parent != NULL && elm == nodes[nodes[elm].parent].left
          invariant tree == Plug(p, t) && t.Node? && elm == t.e.id && Before(p) == Before(p0) && elm in nodes
          invariant nodes[elm].parent == Above(p) && (p.Top? <==> Above(p) == NULL)
          invariant !p.Top? ==> Above(p) in nodes && nodes[Above(p)].left == IdOf(Join(p, t).left)
          invariant !p.Top? ==> IdOf(Join(p, t).right) != IdOf(Join(p, t).left)
          decreases Depth(p)
        {
          elm := nodes[elm].parent;
          t, p := Join(p, t), p.up;
          Family(nodes, root, t, p);
          if !p.Top? { Family(nodes, root, Join(p, t), p.up); }
        }
        elm := nodes[elm].parent;
      }
    }

    /** RB_MINMAX: the first node, or the last, by the sign of `val`. */
    method MinMax(val: int) returns (parent: Ref)
      requires Linked()
      ensures parent == if val < 0 then FirstId(InOrder(tree)) else LastId(InOrder(tree))
    {
      var tmp := root;
      parent := NULL;
      ghost var t, p := tree, Top;
      while tmp != NULL
        invariant tree == Plug(p, t) && tmp == IdOf(t) && parent == Above(p)
        invariant t.Node? ==> t.e.id != NULL
        invariant val < 0 ==> Before(p) == [] && parent == FirstId(After(p))
        invariant val >= 0 ==> After(p) == [] && parent == LastId(Before(p))
        decreases t
      {
        Family(nodes, root, t, p);
        parent := tmp;
        if val < 0 {
          tmp := nodes[tmp].left;
          t, p := t.left, InLeft(p, t.e, t.red, t.right);
        } else {
          tmp := nodes[tmp].right;
          t, p := t.right, InRight(p, t.left, t.e, t.red);
        }
      }
      PlugOrder(p, Leaf);
    }

    /** The comparisons of RB_REINSERT with the two neighbours. */
    method OutOfPlace(x: Ref) returns (b: bool, ghost i: nat)
      requires Linked() && x in Ids(tree) && OthersAscend(InOrder(tree), x)
      ensures i < |InOrder(tree)| && InOrder(tree)[i].id == x && DistinctIds(InOrder(tree))
      ensures x in nodes && nodes[x].key == InOrder(tree)[i].key
      ensures !b ==> Ascending(InOrder(tree))
    {
      var before, after; ghost var k;
      before, i := Prev(x);
      after, k := Next(x);
      OrderDistinct(tree);
      assert i == k;
      Neighbours(nodes, tree, i, before, after);
      b := (before != NULL && nodes[before].key >= nodes[x].key) || (after != NULL && nodes[x].key >= nodes[after].key);
      if !b { NeighboursOrder(InOrder(tree), i); }
    }

    /** RB_REINSERT: puts `x` back in order after its key has changed. */
    method Reinsert(x: Ref) returns (r: Ref, ghost i: nat, ghost j: nat)
      requires Linked() && RedBlack(tree) && x in Ids(tree) && OthersAscend(InOrder(tree), x)
      modifies this
      ensures Valid() && SameKeys(old(nodes), nodes)
      ensures i < |old(InOrder(tree))| && old(InOrder(tree))[i].id == x
      ensures var rest, e := Without(old(InOrder(tree)), i), old(InOrder(tree))[i];
              if r == NULL then j <= |rest| && InOrder(tree) == With(rest, j, e) && !HasKey(rest, e.key)
              else InOrder(tree) == rest && Elem(r, e.key) in rest
    {
      var b;
      b, i := OutOfPlace(x);
      if b {
        ghost var k;
        r, k := Remove(x);
        assert i == k;
        r, j := Insert(x);
      } else {
        r, j := NULL, i;
        AloneWithKey(InOrder(tree), i);
      }
    }
  }
}
