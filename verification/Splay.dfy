/** The splay trees of include/sys/tree.h, pointer write by pointer write. */
module Splay {
  import opened TreeKeys
  import opened SplayShape
  import opened SplayHeap

  class Head {
    /** The nodes in memory, in the tree or not. */
    var nodes: Nodes
    var root: Ref
    /** Where the local node of a splay lives while it runs. */
    const local: Ref
    /** The tree the pointers stand for. */
    ghost var tree: Tree

    ghost predicate Linked()
      reads this
    {
      && NULL !in nodes && local != NULL && local !in nodes
      && Repr(nodes, tree) && root == IdOf(tree) && DistinctIds(InOrder(tree))
    }

    ghost predicate Valid()
      reads this
    {
      Linked() && Ascending(InOrder(tree))
    }

    /** SPLAY_INIT, over the nodes that memory holds. */
    constructor (memory: Nodes, stack: Ref)
      requires NULL !in memory && stack != NULL && stack !in memory
      ensures Valid() && InOrder(tree) == [] && nodes == memory
    {
      nodes, root, local, tree := memory, NULL, stack, Leaf;
    }

    method RotateRight(tmp: Ref, left: Ref, right: Ref, ghost l: Lefts, ghost t: Tree, ghost r: Rights)
      requires InHand(nodes, local, root, left, right, l, t, r) && t.Node? && t.left.Node? && tmp == t.left.e.id
      modifies this`nodes, this`root
      ensures InHand(nodes, local, root, left, right, l, RotatedRight(t), r)
      ensures Within(old(nodes), nodes, Reach(local, l, t, r))
    {
      RootApart(nodes, local, root, left, right, l, t, r);
      nodes := nodes[root := nodes[root].(left := nodes[tmp].right)];
      nodes := nodes[tmp := nodes[tmp].(right := root)];
      RotateRightAt(old(nodes), nodes, local, root, left, right, l, t, r);
      root := tmp;
    }

    method RotateLeft(tmp: Ref, left: Ref, right: Ref, ghost l: Lefts, ghost t: Tree, ghost r: Rights)
      requires InHand(nodes, local, root, left, right, l, t, r) && t.Node? && t.right.Node? && tmp == t.right.e.id
      modifies this`nodes, this`root
      ensures InHand(nodes, local, root, left, right, l, RotatedLeft(t), r)
      ensures Within(old(nodes), nodes, Reach(local, l, t, r))
    {
      RootApart(nodes, local, root, left, right, l, t, r);
      nodes := nodes[root := nodes[root].(right := nodes[tmp].left)];
      nodes := nodes[tmp := nodes[tmp].(left := root)];
      RotateLeftAt(old(nodes), nodes, local, root, left, right, l, t, r);
      root := tmp;
    }

    /** SPLAY_LINKLEFT. */
    method LinkToRight(left: Ref, right: Ref, ghost l: Lefts, ghost t: Tree, ghost r: Rights) returns (right': Ref)
      requires InHand(nodes, local, root, left, right, l, t, r) && t.Node?
      modifies this`nodes, this`root
      ensures InHand(nodes, local, root, left, right', l, t.left, LinkRight(r, t.e, t.right))
      ensures Within(old(nodes), nodes, Reach(local, l, t, r))
    {
      RootApart(nodes, local, root, left, right, l, t, r);
      nodes := nodes[right := nodes[right].(left := root)];
      LinkRightAt(old(nodes), nodes, local, root, left, right, l, t, r);
      right' := root;
      root := nodes[root].left;
    }

    /** SPLAY_LINKRIGHT. */
    method LinkToLeft(left: Ref, right: Ref, ghost l: Lefts, ghost t: Tree, ghost r: Rights) returns (left': Ref)
      requires InHand(nodes, local, root, left, right, l, t, r) && t.Node?
      modifies this`nodes, this`root
      ensures InHand(nodes, local, root, left', right, LinkLeft(l, t.left, t.e), t.right, r)
      ensures Within(old(nodes), nodes, Reach(local, l, t, r))
    {
      RootApart(nodes, local, root, left, right, l, t, r);
      nodes := nodes[left := nodes[left].(right := root)];
      LinkLeftAt(old(nodes), nodes, local, root, left, right, l, t, r);
      left' := root;
      root := nodes[root].right;
    }

    /** SPLAY_ASSEMBLE. */
    method Assemble(left: Ref, right: Ref, ghost l: Lefts, ghost t: Tree, ghost r: Rights)
      requires InHand(nodes, local, root, left, right, l, t, r) && t.Node? && local != NULL
      modifies this
      ensures Linked() && tree == Assembled(l, t, r) && InOrder(tree) == Spread(l, t, r)
      ensures nodes.Keys == old(nodes.Keys) - {local} && forall i <- nodes :: nodes[i].key == old(nodes)[i].key
      ensures Same(old(nodes), nodes, old(nodes).Keys - Reach(local, l, t, r))
    {
      RootApart(nodes, local, root, left, right, l, t, r);
      WriteAssembly(left, right);
      AssembledAt(old(nodes), nodes, local, root, left, right, l, t, r);
      AssembledKeys(old(nodes), nodes, local, root, left, right);
      tree := Assembled(l, t, r);
    }

    /** The pointers of SPLAY_ASSEMBLE; the local node goes out of scope. */
    method WriteAssembly(left: Ref, right: Ref)
      requires root in nodes && local in nodes && left in nodes && right in nodes
      requires root != local && root != left && root != right
      modifies this`nodes
      ensures AssembledBy(old(nodes), nodes, local, root, left, right)
    {
      nodes := nodes[left := nodes[left].(right := nodes[root].left)];
      nodes := nodes[right := nodes[right].(left := nodes[root].right)];
      nodes := nodes[root := nodes[root].(left := nodes[local].right)];
      nodes := nodes[root := nodes[root].(right := nodes[local].left)];
      nodes := nodes - {local};
    }

    /** The turn of the loop for a key left of the root. */
    method GoLeft(key: int, left: Ref, right: Ref, ghost l: Lefts, ghost t: Tree, ghost r: Rights)
      returns (right': Ref, done: bool, ghost t': Tree, ghost r': Rights)
      requires InHand(nodes, local, root, left, right, l, t, r) && t.Node? && key < t.e.key
      requires Ascending(Spread(l, t, r)) && AllAbove(RightOrder(r), key)
      modifies this`nodes, this`root
      ensures InHand(nodes, local, root, left, right', l, t', r')
      ensures Within(old(nodes), nodes, Reach(local, l, t, r))
      ensures Spread(l, t', r') == Spread(l, t, r) && AllAbove(RightOrder(r'), key)
      ensures t'.Node? && if done then Final(t', key) else Size(t') < Size(t)
    {
      RootApart(nodes, local, root, left, right, l, t, r);
      right', done, t', r' := right, true, t, r;
      var tmp := nodes[root].left;
      if tmp == NULL { return; }
      if key < nodes[tmp].key {
        RotateRight(tmp, left, right, l, t, r);
        RightKeepsOrder(t);
        t' := RotatedRight(t);
        RootApart(nodes, local, root, left, right, l, t', r);
        if nodes[root].left == NULL { return; }
      }
      LinkedAbove(l, t', r, key);
      LinkRightOrder(l, t', r);
      right' := LinkToRight(left, right, l, t', r);
      t', r', done := t'.left, LinkRight(r, t'.e, t'.right), false;
    }

    /** The turn of the loop for a key right of the root. */
    method GoRight(key: int, left: Ref, right: Ref, ghost l: Lefts, ghost t: Tree, ghost r: Rights)
      returns (left': Ref, done: bool, ghost t': Tree, ghost l': Lefts)
      requires InHand(nodes, local, root, left, right, l, t, r) && t.Node? && key > t.e.key
      requires Ascending(Spread(l, t, r)) && AllBelow(LeftOrder(l), key)
      modifies this`nodes, this`root
      ensures InHand(nodes, local, root, left', right, l', t', r)
      ensures Within(old(nodes), nodes, Reach(local, l, t, r))
      ensures Spread(l', t', r) == Spread(l, t, r) && AllBelow(LeftOrder(l'), key)
      ensures t'.Node? && if done then Final(t', key) else Size(t') < Size(t)
    {
      RootApart(nodes, local, root, left, right, l, t, r);
      left', done, t', l' := left, true, t, l;
      var tmp := nodes[root].right;
      if tmp == NULL { return; }
      if key > nodes[tmp].key {
        RotateLeft(tmp, left, right, l, t, r);
        LeftKeepsOrder(t);
        t' := RotatedLeft(t);
        RootApart(nodes, local, root, left, right, l, t', r);
        if nodes[root].right == NULL { return; }
      }
      LinkedBelow(l, t', r, key);
      LinkLeftOrder(l, t', r);
      left' := LinkToLeft(left, right, l, t', r);
      t', l', done := t'.right, LinkLeft(l, t'.left, t'.e), false;
    }

    /** The loop: down until the key is met or has no subtree left to be in. */
    method Descend(key: int, ghost t0: Tree)
      returns (left: Ref, right: Ref, ghost l: Lefts, ghost t: Tree, ghost r: Rights)
      requires InHand(nodes, local, root, local, local, NoLeft, t0, NoRight) && t0.Node?
      requires Ascending(Spread(NoLeft, t0, NoRight))
      modifies this`nodes, this`root
      ensures InHand(nodes, local, root, left, right, l, t, r) && Spread(l, t, r) == Spread(NoLeft, t0, NoRight)
      ensures AllBelow(LeftOrder(l), key) && AllAbove(RightOrder(r), key) && Final(t, key)
      ensures Within(old(nodes), nodes, Reach(local, l, t, r))
    {
      l, t, r := NoLeft, t0, NoRight;
      left, right := local, local;
      var done := false;
      RootApart(nodes, local, root, left, right, l, t, r);
      while nodes[root].key != key
        invariant InHand(nodes, local, root, left, right, l, t, r) && t.Node? &&
                  Spread(l, t, r) == Spread(NoLeft, t0, NoRight)
        invariant AllBelow(LeftOrder(l), key) && AllAbove(RightOrder(r), key)
        invariant root in nodes && nodes[root].key == t.e.key
        invariant Within(old(nodes), nodes, Reach(local, l, t, r))
        decreases Size(t)
      {
        ghost var before := nodes;
        if key < nodes[root].key {
          right, done, t, r := GoLeft(key, left, right, l, t, r);
        } else {
          left, done, t, l := GoRight(key, left, right, l, t, r);
        }
        WithinTwice(old(nodes), before, nodes, Reach(local, l, t, r));
        if done { break; }
        RootApart(nodes, local, root, left, right, l, t, r);
      }
    }

    /** The main operation: the order stays, and the root is the node with the
        key or one that neighbours it. */
    method Splay(key: int)
      requires Valid() && tree.Node?
      modifies this
      ensures Valid() && InOrder(tree) == old(InOrder(tree))
      ensures Within(old(nodes), nodes, IdSet(InOrder(tree)))
      ensures RootedAt(tree, key)
    {
      StartInHand(nodes, local, root, tree);
      nodes := nodes[local := Rec(NULL, NULL, 0)];
      var left, right; ghost var l, t, r;
      left, right, l, t, r := Descend(key, tree);
      ghost var h1 := nodes;
      FinalIsRooted(l, t, r, key);
      Assemble(left, right, l, t, r);
      WithinTree(old(nodes), h1, nodes, local, IdSet(InOrder(tree)));
    }

    /** SPLAY_FIND. */
    method Find(key: int) returns (r: Ref)
      requires Valid()
      modifies this
      ensures Valid() && InOrder(tree) == old(InOrder(tree))
      ensures r == NULL <==> !HasKey(InOrder(tree), key)
      ensures r != NULL ==> Elem(r, key) in InOrder(tree)
    {
      if root == NULL {
        EmptyTree();
        return NULL;
      }
      Splay(key);
      Held(nodes, tree);
      RootedHasKey(tree, key);
      r := if nodes[root].key == key then root else NULL;
      assert tree.e in InOrder(tree);
    }

    lemma EmptyTree()
      requires Linked()
      ensures root == NULL <==> tree.Leaf?
    {
      if tree.Node? { Held(nodes, tree); }
    }

    /** SPLAY_INSERT: `elm` becomes the root, unless a node with its key is there. */
    method Insert(elm: Ref) returns (r: Ref, ghost i: nat)
      requires Valid() && elm in nodes
      modifies this
      ensures Valid() && SameKeys(old(nodes), nodes)
      ensures r == NULL <==> !old(HasKey(InOrder(tree), nodes[elm].key))
      ensures r == NULL ==> i <= |old(InOrder(tree))| && root == elm
      ensures r == NULL ==> InOrder(tree) == With(old(InOrder(tree)), i, Elem(elm, old(nodes[elm].key)))
      ensures r != NULL ==> InOrder(tree) == old(InOrder(tree)) && Elem(r, old(nodes[elm].key)) in InOrder(tree)
    {
      var key := nodes[elm].key;
      EmptyTree();
      if root == NULL {
        nodes := nodes[elm := nodes[elm].(left := NULL, right := NULL)];
        root, tree, i := elm, Node(Leaf, Elem(elm, key), Leaf), 0;
        r := NULL;
      } else {
        Splay(key);
        RootedHasKey(tree, key);
        ReprKeys(nodes, tree);
        r, i := PutAtRoot(elm);
      }
    }

    /** The second half of SPLAY_INSERT, with the key at the root or next to it. */
    method PutAtRoot(elm: Ref) returns (r: Ref, ghost i: nat)
      requires Valid() && elm in nodes && RootedAt(tree, nodes[elm].key)
      requires tree.e.key != nodes[elm].key ==> elm !in IdSet(InOrder(tree))
      modifies this
      ensures Valid() && SameKeys(old(nodes), nodes)
      ensures r == NULL <==> old(tree).e.key != old(nodes[elm].key)
      ensures r == NULL ==> i <= |old(InOrder(tree))| && root == elm
      ensures r == NULL ==> InOrder(tree) == With(old(InOrder(tree)), i, Elem(elm, old(nodes[elm].key)))
      ensures r != NULL ==> tree == old(tree) && Elem(r, old(nodes[elm].key)) in InOrder(tree)
    {
      var key := nodes[elm].key;
      ghost var t := tree;
      Held(nodes, t);
      if key < nodes[root].key {
        i := PutAboveRoot(elm);
      } else if key > nodes[root].key {
        i := PutBelowRoot(elm);
      } else {
        RootInOrder(t);
        return root, 0;
      }
      r := NULL;
    }

    method PutAboveRoot(elm: Ref) returns (ghost i: nat)
      requires Valid() && elm in nodes && elm !in IdSet(InOrder(tree))
      requires RootedAt(tree, nodes[elm].key) && nodes[elm].key < tree.e.key
      modifies this
      ensures Valid() && SameKeys(old(nodes), nodes) && root == elm && i <= |old(InOrder(tree))|
      ensures InOrder(tree) == With(old(InOrder(tree)), i, Elem(elm, old(nodes[elm].key)))
    {
      i := PutAboveOrder(tree, Elem(elm, nodes[elm].key));
      LinkAbove(elm);
    }

    method LinkAbove(elm: Ref)
      requires Linked() && tree.Node? && elm in nodes && elm !in IdSet(InOrder(tree))
      requires Ascending(InOrder(PutAbove(tree, Elem(elm, nodes[elm].key))))
      modifies this
      ensures Valid() && SameKeys(old(nodes), nodes) && root == elm
      ensures tree == PutAbove(old(tree), Elem(elm, old(nodes[elm].key)))
    {
      Held(nodes, tree);
      NodeIds(tree);
      nodes := nodes[elm := nodes[elm].(left := nodes[root].left)];
      nodes := nodes[elm := nodes[elm].(right := root)];
      nodes := nodes[root := nodes[root].(left := NULL)];
      PutAboveAt(old(nodes), nodes, tree, elm);
      root, tree := elm, PutAbove(tree, Elem(elm, old(nodes[elm].key)));
      AscendingDistinct(nodes, tree);
    }

    method PutBelowRoot(elm: Ref) returns (ghost i: nat)
      requires Valid() && elm in nodes && elm !in IdSet(InOrder(tree))
      requires RootedAt(tree, nodes[elm].key) && nodes[elm].key > tree.e.key
      modifies this
      ensures Valid() && SameKeys(old(nodes), nodes) && root == elm && i <= |old(InOrder(tree))|
      ensures InOrder(tree) == With(old(InOrder(tree)), i, Elem(elm, old(nodes[elm].key)))
    {
      i := PutBelowOrder(tree, Elem(elm, nodes[elm].key));
      LinkBelow(elm);
    }

    method LinkBelow(elm: Ref)
      requires Linked() && tree.Node? && elm in nodes && elm !in IdSet(InOrder(tree))
      requires Ascending(InOrder(PutBelow(tree, Elem(elm, nodes[elm].key))))
      modifies this
      ensures Valid() && SameKeys(old(nodes), nodes) && root == elm
      ensures tree == PutBelow(old(tree), Elem(elm, old(nodes[elm].key)))
    {
      Held(nodes, tree);
      NodeIds(tree);
      nodes := nodes[elm := nodes[elm].(right := nodes[root].right)];
      nodes := nodes[elm := nodes[elm].(left := root)];
      nodes := nodes[root := nodes[root].(right := NULL)];
      PutBelowAt(old(nodes), nodes, tree, elm);
      root, tree := elm, PutBelow(tree, Elem(elm, old(nodes[elm].key)));
      AscendingDistinct(nodes, tree);
    }

    /** SPLAY_REMOVE: the order loses the one element with the key of `elm`. */
    method Remove(elm: Ref) returns (r: Ref, ghost i: nat)
      requires Valid() && elm in nodes
      modifies this
      ensures Valid() && SameKeys(old(nodes), nodes)
      ensures r == NULL <==> !old(HasKey(InOrder(tree), nodes[elm].key))
      ensures r == NULL ==> InOrder(tree) == old(InOrder(tree))
      ensures r != NULL ==> r == elm && i < |old(InOrder(tree))| && old(InOrder(tree))[i].key == old(nodes[elm].key)
      ensures r != NULL ==> InOrder(tree) == Without(old(InOrder(tree)), i)
    {
      i := 0;
      EmptyTree();
      if root == NULL {
        return NULL, i;
      }
      var key := nodes[elm].key;
      Splay(key);
      RootedHasKey(tree, key);
      Held(nodes, tree);
      if nodes[root].key == key {
        i := DropRoot(key);
        return elm, i;
      }
      r := NULL;
    }

    /** The second half of SPLAY_REMOVE: the root goes. */
    method DropRoot(key: int) returns (ghost i: nat)
      requires Valid() && tree.Node? && tree.e.key == key
      modifies this
      ensures Valid() && SameKeys(old(nodes), nodes)
      ensures i < |old(InOrder(tree))| && old(InOrder(tree))[i].key == key
      ensures InOrder(tree) == Without(old(InOrder(tree)), i)
    {
      ghost var t := tree;
      Held(nodes, t);
      NodeIds(t);
      PartsOrdered(t);
      i := |InOrder(t.left)|;
      if nodes[root].left == NULL {
        root := nodes[root].right;
        tree := t.right;
      } else {
        var tmp := nodes[root].right;
        root := nodes[root].left;
        tree := t.left;
        Splay(key);
        LargestAtRoot(tree, key);
        HangBack(tmp, t.right, old(nodes));
      }
    }

    /** The last write of SPLAY_REMOVE. */
    method HangBack(tmp: Ref, ghost right: Tree, ghost h: Nodes)
      requires Valid() && tree.Node? && tree.right.Leaf? && tmp == IdOf(right)
      requires Within(h, nodes, IdSet(InOrder(tree))) && Repr(h, right) && DistinctIds(InOrder(right))
      requires IdSet(InOrder(tree)) !! IdSet(InOrder(right)) && Ascending(InOrder(tree) + InOrder(right))
      modifies this
      ensures Valid() && SameKeys(old(nodes), nodes) && InOrder(tree) == old(InOrder(tree)) + InOrder(right)
    {
      ReprFrame(h, nodes, right);
      ReprKeys(nodes, right);
      Held(nodes, tree);
      DistinctTogether(InOrder(tree), InOrder(right));
      nodes := nodes[root := nodes[root].(right := tmp)];
      JoinedAt(old(nodes), nodes, tree, right);
      tree := Node(tree.left, tree.e, right);
      AscendingDistinct(nodes, tree);
    }
  }
}
