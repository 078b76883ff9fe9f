// The red-black tree of the virtual nodes, by links to children and parents, with one
// sentinel node in place of every missing child.

module RbTree {
  import opened RbShape
  import opened RbLinks
  import opened RbDelete

  ghost function CellOf(n: Node): Cell
    reads n
  {
    Cell(n.parent, n.left, n.right, n.red)
  }

  class RbTree {
    const nil: Node
    var root: Node
    var size: nat
    // The nodes of the tree and the sentinel; the tree itself; and what stands in the parent
    // link of the root: the sentinel, or a root that was deleted.
    ghost var nodes: set<Node>
    ghost var tree: Tree
    ghost var top: Node

    ghost function Mem(): (m: Memory)
      reads this`nodes, nodes
      ensures m.Keys == nodes
    {
      map n | n in nodes :: CellOf(n)
    }

    // The links are those of the tree that has `t` at the end of `path`.
    ghost predicate At(path: Path, t: Tree)
      reads this`root, this`nodes, this`top, nodes
    {
      Holds(Mem(), nil, root, top, path, t)
    }

    ghost predicate Valid()
      reads this, nodes, top
    {
      && At(Top, tree) && RedBlack(tree) && Sorted(InOrder(tree)) && size == |InOrder(tree)|
      && !nil.red && !top.red
    }

    constructor ()
      ensures Valid() && tree == Leaf && fresh(nil) && nodes == {nil} && top == nil
    {
      var nobody := new Server("", 0);
      var n := new Node(0, nobody);
      nil, root, size, top := n, n, 0, n;
      nodes, tree := {n}, Leaf;
      new;
      nil.red := false;
      nil.parent, nil.left, nil.right := nil, nil, nil;
      assert Balanced(tree, 0);
    }

    lemma NodesOnce()
      requires Valid()
      ensures NoDuplicates(InOrder(tree)) && size == |InOrder(tree)|
    {
      assert Whole(Top, tree) == InOrder(tree);
    }

    lemma KeysSorted()
      requires Valid()
      ensures Sorted(InOrder(tree))
    {
    }

    // ---- local changes ----

    method Paint(n: Node, red: bool, ghost path: Path, ghost t: Tree)
      requires At(path, t) && t.Branch? && t.node == n
      modifies n
      ensures At(path, t.(red := red)) && n != nil && n != top
      ensures n.red == red && n.parent == old(n.parent) && n.left == old(n.left) && n.right == old(n.right)
    {
      hide Holds;
      PlaceFacts(Mem(), nil, root, top, path, t);
      ghost var m := Mem();
      n.red := red;
      Painted(m, Mem(), nil, root, top, path, t, red);
    }

    // Memory around a place, as fields.
    lemma Around(path: Path, t: Tree)
      requires At(path, t) && t.Branch?
      ensures t.node in nodes && t.node != nil && t.node != top
      ensures t.node.parent == Parent(path, top) && t.node.left == Root(t.left, nil) && t.node.right == Root(t.right, nil) && t.node.red == t.red
      ensures t.node == root <==> path.Top?
      ensures !path.Top? ==>
        && path.node in nodes && path.node != nil && path.node != t.node && path.node != top
        && path.node.left == Root(if path.InLeft? then t else path.left, nil)
        && path.node.right == Root(if path.InLeft? then path.right else t, nil)
        && path.node.red == path.red
        && (path.node.left == t.node <==> path.InLeft?)
    {
      hide Holds;
      PlaceFacts(Mem(), nil, root, top, path, t);
    }

    // `y` takes the place of `x` below what `x` hangs from.
    method Supplant(x: Node, y: Node, ghost path: Path, ghost m: Memory, ghost b: Tree)
      requires m == Mem() && RotationSite(m, nil, root, top, path, x, y, b)
      modifies this`root, y`parent, if path.Top? then {} else {path.node}
      ensures y.parent == Parent(path, top)
      ensures if path.Top? then root == y else root == old(root) && CellOf(path.node) == Rechild(path, m[path.node], y)
    {
      y.parent := x.parent;
      if x == root {
        root := y;
      } else if x.parent.left == x {
        x.parent.left := y;
      } else {
        x.parent.right := y;
      }
    }

    // `y` comes to stand above `x`, on its right side, and what was left of `y` below `x`.
    method TurnLeft(x: Node, y: Node)
      requires x != y && y.left != null && y.left != x && y.left != y
      modifies x`parent, x`right, y`left, y.left`parent
      ensures x.parent == y && x.right == old(y.left) && y.left == x
      ensures old(y.left).parent == if old(y.left) == nil then old(y.left.parent) else x
    {
      var z := y.left;
      x.parent := y;
      y.left := x;
      x.right := z;
      if z != nil {
        z.parent := x;
      }
    }

    method RelinkLeft(x: Node, ghost path: Path, ghost b: Tree)
      requires x.right != null && RotationSite(Mem(), nil, root, top, path, x, x.right, b)
      requires nil in nodes && x.right.left == Root(b, nil)
      modifies this`root, nodes
      ensures RelinkedLeft(old(Mem()), Mem(), nil, old(root), root, top, path, x, old(x.right), b)
    {
      ghost var m := Mem();
      var rc := x.right;
      Supplant(x, rc, path, m, b);
      TurnLeft(x, rc);
    }

    method LeftRotate(x: Node, ghost path: Path, ghost t: Tree)
      requires At(path, t) && t.Branch? && t.node == x && t.right.Branch?
      modifies this`root, nodes
      ensures At(path, Branch(Branch(t.left, x, t.red, t.right.left), t.right.node, t.right.red, t.right.right))
      ensures nil.parent == old(nil.parent) && nil.red == old(nil.red)
    {
      hide Holds, RotationSite;
      ghost var m, root0, a, b, c := Mem(), root, t.left, t.right.left, t.right.right;
      ghost var y, yr := t.right.node, t.right.red;
      LeftSite(m, nil, root, top, path, a, x, t.red, b, y, yr, c);
      RelinkLeft(x, path, b);
      RotatedLeft(m, Mem(), nil, root0, root, top, path, a, x, t.red, b, y, yr, c);
    }

    method TurnRight(x: Node, y: Node)
      requires x != y && y.right != null && y.right != x && y.right != y
      modifies x`parent, x`left, y`right, y.right`parent
      ensures x.parent == y && x.left == old(y.right) && y.right == x
      ensures old(y.right).parent == if old(y.right) == nil then old(y.right.parent) else x
    {
      var z := y.right;
      y.right := x;
      x.parent := y;
      x.left := z;
      if z != nil {
        z.parent := x;
      }
    }

    method RelinkRight(x: Node, ghost path: Path, ghost b: Tree)
      requires x.left != null && RotationSite(Mem(), nil, root, top, path, x, x.left, b)
      requires nil in nodes && x.left.right == Root(b, nil)
      modifies this`root, nodes
      ensures RelinkedRight(old(Mem()), Mem(), nil, old(root), root, top, path, x, old(x.left), b)
    {
      ghost var m := Mem();
      var lc := x.left;
      Supplant(x, lc, path, m, b);
      TurnRight(x, lc);
    }

    method RightRotate(x: Node, ghost path: Path, ghost t: Tree)
      requires At(path, t) && t.Branch? && t.node == x && t.left.Branch?
      modifies this`root, nodes
      ensures At(path, Branch(t.left.left, t.left.node, t.left.red, Branch(t.left.right, x, t.red, t.right)))
      ensures nil.parent == old(nil.parent) && nil.red == old(nil.red)
    {
      hide Holds, RotationSite;
      ghost var m, root0, a, b, c := Mem(), root, t.left.left, t.left.right, t.right;
      ghost var y, yr := t.left.node, t.left.red;
      RightSite(m, nil, root, top, path, a, y, yr, b, x, t.red, c);
      RelinkRight(x, path, b);
      RotatedRight(m, Mem(), nil, root0, root, top, path, a, y, yr, b, x, t.red, c);
    }

    // ---- moving around a place ----

    lemma Over(path: Path, t: Tree)
      requires !path.Top?
      ensures At(path, t) <==> At(path.up, Above(path, t))
      ensures At(path, t) <==> At(Across(path, t), Sibling(path))
    {
      hide Holds;
      HoldsAbove(Mem(), nil, root, top, path, t);
      HoldsAbove(Mem(), nil, root, top, Across(path, t), Sibling(path));
    }

    // ---- insertion ----

    // Parent and uncle turn black, the grandparent red.
    method Recolour(n: Node, p: Node, u: Node, ghost path: Path, ghost t: Tree)
      requires At(path, t) && t.Branch? && !path.Top? && !path.up.Top? && Sibling(path.up).Branch?
      requires n == t.node && p == path.node && u == Sibling(path.up).node
      modifies nodes
      ensures At(path.up.up, Recoloured(path, t)) && p.parent == path.up.node
      ensures nil.red == old(nil.red) && nil.parent == old(nil.parent)
    {
      hide Holds, RbTree.At;
      ghost var gp, P, U := path.up, Above(path, t), Sibling(path.up);
      Over(path, t);
      Over(gp, P);
      Around(Across(gp, P), U);
      Paint(u, false, Across(gp, P), U);
      ghost var gp1 := if gp.InLeft? then gp.(right := Black(U)) else gp.(left := Black(U));
      Over(gp1, P);
      Around(gp1, P);
      Paint(p, false, gp1, P);
      Over(gp1, Black(P));
      Around(gp1.up, Above(gp1, Black(P)));
      Paint(p.parent, true, gp1.up, Above(gp1, Black(P)));
    }

    // A black uncle, `n` on the outside: the parent takes the grandparent's place.
    method RotateOut(n: Node, left: bool, ghost path: Path, ghost t: Tree)
      requires At(path, t) && t.Branch? && n == t.node && !path.Top? && !path.up.Top? && left == path.InLeft? == path.up.InLeft?
      modifies this`root, nodes
      ensures At(RotatedOut(path), t)
      ensures nil.red == old(nil.red) && nil.parent == old(nil.parent)
    {
      hide Holds, RbTree.At;
      ghost var gp, P := path.up, Above(path, t);
      Around(path, t);
      var p := n.parent;
      Over(path, t);
      Around(gp, P);
      Paint(p, false, gp, P);
      Over(gp, Black(P));
      ghost var G := Above(gp, Black(P));
      Around(gp.up, G);
      var g := p.parent;
      Paint(g, true, gp.up, G);
      G := G.(red := true);
      if left {
        RightRotate(g, gp.up, G);
      } else {
        LeftRotate(g, gp.up, G);
      }
      Over(RotatedOut(path), t);
    }

    // `n` on the inside: the parent is rotated out, and becomes the node to look at.
    method Turn(n: Node, p: Node, left: bool, ghost path: Path, ghost t: Tree)
      requires At(path, t) && t.Branch? && n == t.node && !path.Top? && p == path.node && left == path.InRight?
      modifies this`root, nodes
      ensures At(TurnedPath(path, t), TurnedTree(path, t))
      ensures nil.red == old(nil.red) && nil.parent == old(nil.parent)
    {
      hide Holds, RbTree.At;
      Over(path, t);
      if left {
        LeftRotate(p, path.up, Above(path, t));
      } else {
        RightRotate(p, path.up, Above(path, t));
      }
      Over(TurnedPath(path, t), TurnedTree(path, t));
    }

    // Parent, grandparent and uncle, as links.
    lemma Family(path: Path, t: Tree)
      requires At(path, t) && t.Branch? && !path.Top? && !path.up.Top? && !nil.red
      ensures t.node.parent == path.node && path.node in nodes && path.node != nil && path.node.red == path.red
      ensures path.node.parent == path.up.node && path.up.node in nodes
      ensures path.node == path.up.node.left <==> path.up.InLeft?
      ensures t.node == path.node.left <==> path.InLeft?
      ensures t.node == path.node.right <==> path.InRight?
      ensures var u := Root(Sibling(path.up), nil);
        && (if path.up.InLeft? then path.up.node.right == u else path.up.node.left == u)
        && u in nodes && u.red == IsRed(Sibling(path.up))
    {
      hide Holds;
      Around(path, t);
      Over(path, t);
      Around(path.up, Above(path, t));
      Over(path.up, Above(path, t));
      if Sibling(path.up).Branch? {
        Around(Across(path.up, Above(path, t)), Sibling(path.up));
      }
      SiblingApart(path, t);
    }

    // A node and its sibling are not the same.
    lemma SiblingApart(path: Path, t: Tree)
      requires At(path, t) && t.Branch? && !path.Top?
      ensures Root(Sibling(path), nil) != t.node && nil in nodes
    {
      Apart(path, t);
      assert t.node in InOrder(t);
      if Sibling(path).Branch? {
        assert Sibling(path).node in InOrder(Sibling(path));
        assert path.InLeft? ==> Sibling(path).node in After(path);
        assert path.InRight? ==> Sibling(path).node in Before(path);
      }
    }

    // One round of the repair after an insertion.
    method InsertStep(n: Node, ghost path: Path, ghost t: Tree, ghost h: nat)
      returns (next: Node, ghost path': Path, ghost t': Tree, ghost h': nat)
      requires At(path, t) && Inserting(path, t, h) && RedEnd(path) && n == t.node && !nil.red
      modifies this`root, nodes
      ensures At(path', t') && Inserting(path', t', h') && next == t'.node && Whole(path', t') == Whole(path, t)
      ensures RedEnd(path') ==> Length(path') < Length(path)
      ensures !nil.red && nil.parent == old(nil.parent)
    {
      hide Holds, RbTree.At, Whole, Recoloured, RotatedOut, TurnedPath, TurnedTree, PathBalanced, PathProper, BlackRoot, Balanced, Proper;
      Grandparent(path, t, h);
      Family(path, t);
      path', t', h', next := path, t, h, n;
      var p := next.parent;
      var left := p == p.parent.left;
      var u := if left then p.parent.right else p.parent.left;
      if u.red {
        RecolouredInserting(path, t, h);
        RecolouredWhole(path, t);
        Recolour(next, p, u, path, t);
        next := p.parent;
        path', t', h' := path.up.up, Recoloured(path, t), h + 1;
      } else {
        if next == (if left then p.right else p.left) {
          TurnedInserting(path, t, h);
          TurnedWhole(path, t);
          Turn(next, p, left, path, t);
          next := p;
          path', t' := TurnedPath(path, t), TurnedTree(path, t);
        }
        RotatedInserting(path', t', h);
        RotatedOutWhole(path', t');
        RotateOut(next, left, path', t');
        path' := RotatedOut(path');
      }
    }

    method InsertFixup(node: Node, ghost path0: Path, ghost t0: Tree) returns (ghost t: Tree)
      requires At(path0, t0) && Inserting(path0, t0, 0) && node == t0.node && !nil.red && !top.red
      modifies this`root, nodes
      ensures At(Top, t) && RedBlack(t) && InOrder(t) == Whole(path0, t0) && !nil.red
    {
      hide Holds, RbTree.At, Whole, PathBalanced, PathProper, BlackRoot, Balanced, Proper, RedBlack;
      var n := node;
      ghost var path, h: nat := path0, 0;
      t := t0;
      TopOutside(path, t);
      Around(path, t);
      while n.parent.red
        invariant At(path, t) && Inserting(path, t, h) && n == t.node && !nil.red && !top.red
        invariant Whole(path, t) == Whole(path0, t0) && n.parent != null
        decreases if RedEnd(path) then 1 + Length(path) else 0
      {
        Around(path, t);
        n, path, t, h := InsertStep(n, path, t, h);
        Around(path, t);
      }
      Around(path, t);
      InsertingEnds(path, t, h);
      PlugIsWhole(path, t);
      AtPlug(path, t);
      t := Plug(path, t);
      Around(Top, t);
      Paint(root, false, Top, t);
      t := t.(red := false);
    }

    lemma TopOutside(path: Path, t: Tree)
      requires At(path, t)
      ensures nil in nodes && (top == nil || top !in nodes)
    {
    }

    lemma AtPlug(path: Path, t: Tree)
      ensures At(path, t) <==> At(Top, Plug(path, t))
    {
      HoldsPlug(Mem(), nil, root, top, path, t);
    }

    // The node below which `key` belongs.
    method Place(key: int) returns (y: Node, ghost path: Path)
      requires Valid() && tree.Branch?
      ensures At(path, Leaf) && !path.Top? && y == path.node && y in nodes && y == Parent(path, nil)
      ensures Whole(path, Leaf) == InOrder(tree) && Plug(path, Leaf) == tree && Straddles(path, key)
      ensures path.InLeft? <==> key < y.key
    {
      hide Holds, RbTree.At, Whole, RedBlack, Straddles, Sorted;
      ghost var t := tree;
      path := Top;
      StraddlesTop(key, tree);
      Around(path, t);
      var x := root;
      y := root;
      while x != nil
        invariant At(path, t) && x == Root(t, nil) && Whole(path, t) == InOrder(tree) && Plug(path, t) == tree && Straddles(path, key)
        invariant !path.Top? ==> y == path.node && y in nodes && (path.InLeft? <==> key < y.key)
        invariant path.Top? ==> t == tree
        decreases t
      {
        Around(path, t);
        y := x;
        ghost var left := key < x.key;
        StraddlesDown(path, t, key);
        Over(Down(path, t, left), Child(t, left));
        WholeAbove(Down(path, t, left), Child(t, left));
        if key < x.key {
          x := x.left;
        } else {
          x := x.right;
        }
        path, t := Down(path, t, left), Child(t, left);
      }
      NotNil(path, t);
    }

    lemma NotNil(path: Path, t: Tree)
      requires At(path, t) && Root(t, nil) == nil
      ensures t == Leaf
    {
    }

    // Hangs a new red node where its key belongs.
    method Attach(node: Node) returns (ghost path: Path)
      requires Valid() && node !in nodes && node != top
      modifies this`root, this`nodes, this`top, nodes, node
      ensures At(path, Branch(Leaf, node, true, Leaf)) && nodes == old(nodes) + {node} && !nil.red && !top.red
      ensures Whole(path, Leaf) == InOrder(tree) && Plug(path, Leaf) == tree && Straddles(path, node.key)
      ensures top == if tree.Leaf? then nil else old(top)
    {
      hide Holds, Whole, Straddles, Sorted, RedBlack;
      ghost var m, root0 := Mem(), root;
      TopOutside(Top, tree);
      RootIs(tree);
      var y := nil;
      if root == nil {
        NotNil(Top, tree);
        StraddlesTop(node.key, Leaf);
        NoTop(m, nil, root, top);
        path, top := Top, nil;
      } else {
        NotLeaf(Top, tree);
        y, path := Place(node.key);
        AroundHole(path);
      }
      Hook(node, y, path);
      Attached(m, Mem(), nil, root0, root, top, path, node);
    }

    method Hook(node: Node, y: Node, ghost path: Path)
      requires node !in nodes && nil in nodes && y == Parent(path, nil) && (path.Top? <==> root == nil)
      requires !path.Top? ==> path.node in nodes && (path.InLeft? <==> node.key < y.key)
      modifies this`root, this`nodes, if path.Top? then {} else {path.node}, node
      ensures nodes == old(nodes) + {node} && CellOf(node) == Cell(y, nil, nil, true)
      ensures if path.Top? then root == node else root == old(root) && CellOf(path.node) == Rechild(path, old(CellOf(path.node)), node)
    {
      node.parent := y;
      if root == nil {
        root := node;
      } else if node.key < y.key {
        y.left := node;
      } else {
        y.right := node;
      }
      node.left := nil;
      node.right := nil;
      node.red := true;
      nodes := nodes + {node};
    }

    lemma RootIs(t: Tree)
      requires At(Top, t)
      ensures root == Root(t, nil)
    {
    }

    lemma NotLeaf(path: Path, t: Tree)
      requires At(path, t) && Root(t, nil) != nil
      ensures t.Branch?
    {
    }

    // The node a missing child hangs from.
    lemma AroundHole(path: Path)
      requires At(path, Leaf) && !path.Top?
      ensures path.node in nodes && path.node != nil && path.node != top
    {
      hide Holds;
      Over(path, Leaf);
      Around(path.up, Above(path, Leaf));
    }

    method Insert(node: Node)
      requires Valid() && node !in nodes && node != top
      modifies this, nodes, node
      ensures Valid() && nodes == old(nodes) + {node} && size == old(size) + 1
      ensures InOrder(tree) == Inserted(old(InOrder(tree)), node)
      ensures top == if old(tree).Leaf? then nil else old(top)
    {
      hide Holds, RbTree.At, Whole, Straddles, Balanced, Proper, PathBalanced, PathProper, BlackRoot, Sorted, Inserted;
      ghost var path := Attach(node);
      InsertingStarts(path, tree, node);
      ghost var before := InOrder(tree);
      tree := InsertFixup(node, path, Branch(Leaf, node, true, Leaf));
      size := size + 1;
      InsertedOrder(path, node, before);
      TopOutside(Top, tree);
    }

    // ---- deletion: the repair ----

    // A child of the sibling.
    lemma Nephew(path: Path, t: Tree, near: bool)
      requires At(path, t) && !path.Top? && Sibling(path).Branch?
      ensures var w := Sibling(path);
        var across := Across(path, t);
        && At(across, w) && At(Down(across, w, path.InLeft? == near), if near then Near(path) else Far(path))
    {
      hide Holds;
      Over(path, t);
      var w, across := Sibling(path), Across(path, t);
      Over(Down(across, w, path.InLeft? == near), Child(w, path.InLeft? == near));
    }

    // A red sibling is rotated above the parent.
    method LiftSibling(w: Node, p: Node, left: bool, ghost path: Path, ghost t: Tree)
      requires At(path, t) && !path.Top? && left == path.InLeft? && p == path.node && Sibling(path).Branch? && w == Sibling(path).node
      modifies this`root, nodes
      ensures At(SiblingUp(path), t)
      ensures nil.red == old(nil.red) && nil.parent == old(nil.parent)
    {
      hide Holds, RbTree.At;
      ghost var W, across := Sibling(path), Across(path, t);
      Over(path, t);
      Around(across, W);
      Paint(w, false, across, W);
      Over(across, Black(W));
      ghost var P := Above(across, Black(W));
      Around(path.up, P);
      Paint(p, true, path.up, P);
      P := P.(red := true);
      if left {
        LeftRotate(p, path.up, P);
      } else {
        RightRotate(p, path.up, P);
      }
      ghost var path' := SiblingUp(path);
      Over(path'.up, Above(path', t));
      Over(path', t);
    }

    method PaleSibling(w: Node, ghost path: Path, ghost t: Tree)
      requires At(path, t) && !path.Top? && Sibling(path).Branch? && w == Sibling(path).node
      modifies w
      ensures At(path.up, Paled(path, t)) && w != nil && w != top && w.parent == path.node
      ensures w in nodes
    {
      hide Holds, RbTree.At;
      ghost var W, across := Sibling(path), Across(path, t);
      Over(path, t);
      Around(across, W);
      Paint(w, true, across, W);
      Over(across, W.(red := true));
    }

    // The near child of the sibling is rotated above it.
    method RaiseNear(w: Node, c: Node, left: bool, ghost path: Path, ghost t: Tree)
      requires At(path, t) && !path.Top? && left == path.InLeft? && Sibling(path).Branch? && w == Sibling(path).node
      requires Near(path).Branch? && c == Near(path).node
      modifies this`root, nodes
      ensures At(NearUp(path), t)
      ensures nil.red == old(nil.red) && nil.parent == old(nil.parent)
    {
      hide Holds, RbTree.At;
      ghost var W, across := Sibling(path), Across(path, t);
      Nephew(path, t, true);
      ghost var down := Down(across, W, path.InLeft?);
      Around(down, Near(path));
      Paint(c, false, down, Near(path));
      Over(down, Black(Near(path)));
      ghost var W1 := Above(down, Black(Near(path)));
      Around(across, W1);
      Paint(w, true, across, W1);
      W1 := W1.(red := true);
      if left {
        RightRotate(w, across, W1);
      } else {
        LeftRotate(w, across, W1);
      }
      Over(NearUp(path), t);
    }

    // The sibling is rotated above the parent, and takes its colour.
    method Mend(w: Node, p: Node, c: Node, left: bool, ghost path: Path, ghost t: Tree)
      requires At(path, t) && !path.Top? && left == path.InLeft? && p == path.node && Sibling(path).Branch? && w == Sibling(path).node
      requires Far(path).Branch? && c == Far(path).node
      modifies this`root, nodes
      ensures At(path.up, Mended(path, t))
      ensures nil.red == old(nil.red) && nil.parent == old(nil.parent)
    {
      hide Holds, RbTree.At;
      ghost var W, across := Sibling(path), Across(path, t);
      Nephew(path, t, false);
      Around(across, W);
      Paint(w, p.red, across, W);
      W := W.(red := path.red);
      ghost var down := Down(across, W, !path.InLeft?);
      Over(down, Far(path));
      Around(down, Far(path));
      Paint(c, false, down, Far(path));
      Over(down, Black(Far(path)));
      W := Above(down, Black(Far(path)));
      Over(across, W);
      ghost var P := Above(across, W);
      Around(path.up, P);
      Paint(p, false, path.up, P);
      P := P.(red := false);
      if left {
        LeftRotate(p, path.up, P);
      } else {
        RightRotate(p, path.up, P);
      }
    }

    // Where a child is missing, the sentinel's parent link says what it would hang from.
    ghost predicate Hanging(path: Path, t: Tree)
      reads nil
    {
      t.Leaf? && !path.Top? ==> nil.parent == path.node
    }

    // Parent, sibling and its children, as links.
    lemma Brothers(path: Path, t: Tree)
      requires At(path, t) && !path.Top? && Sibling(path).Branch? && Hanging(path, t) && !nil.red
      ensures var n, p, W := Root(t, nil), path.node, Sibling(path);
        && n in nodes && n.parent == p && p in nodes && p != nil && p.red == path.red
        && (n == p.left <==> path.InLeft?) && (if path.InLeft? then p.right else p.left) == W.node
        && W.node in nodes && W.node != nil && W.node.red == W.red && W.node.parent == p
        && W.node.left == Root(W.left, nil) && W.node.right == Root(W.right, nil)
        && Root(W.left, nil) in nodes && Root(W.left, nil).red == IsRed(W.left)
        && Root(W.right, nil) in nodes && Root(W.right, nil).red == IsRed(W.right)
    {
      hide Holds;
      TopOutside(path, t);
      Over(path, t);
      Around(Across(path, t), Sibling(path));
      Around(path.up, Above(path, t));
      if t.Branch? {
        Around(path, t);
        SiblingApart(path, t);
      }
      if Near(path).Branch? {
        Nephew(path, t, true);
        Around(Down(Across(path, t), Sibling(path), path.InLeft?), Near(path));
      }
      if Far(path).Branch? {
        Nephew(path, t, false);
        Around(Down(Across(path, t), Sibling(path), !path.InLeft?), Far(path));
      }
    }

    // One round of the repair after a deletion; `done` when nothing is lacking any more.
    method DeleteStep(n: Node, ghost path: Path, ghost t: Tree, ghost h: nat)
      returns (next: Node, ghost path': Path, ghost t': Tree, ghost h': nat, ghost done: bool)
      requires At(path, t) && Lacking(path, t, h) && Hanging(path, t) && !path.Top? && !IsRed(t) && n == Root(t, nil) && !nil.red
      modifies this`root, nodes
      ensures At(path', t') && next == Root(t', nil) && Whole(path', t') == Whole(path, t) && !nil.red
      ensures if done then path'.Top? && RedBlack(t')
              else Lacking(path', t', h') && Hanging(path', t') && (path'.Top? || IsRed(t') || Length(path') < Length(path))
    {
      hide Holds, RbTree.At, Whole, SiblingUp, Paled, NearUp, Mended, Lacking, RedBlack;
      path', t', h', done := path, t, h, false;
      LackingSibling(path, t, h);
      Brothers(path, t);
      var p := n.parent;
      var left := n == p.left;
      var w := if left then p.right else p.left;
      if w.red {
        SiblingUpLacking(path, t, h);
        SiblingUpWhole(path, t);
        LiftSibling(w, p, left, path, t);
        path' := SiblingUp(path);
        SiblingUpEnd(path);
        LackingSibling(path', t, h);
        Brothers(path', t);
        w := if left then p.right else p.left;
      }
      if !w.left.red && !w.right.red {
        PaledLacking(path', t, h);
        PaledWhole(path', t);
        PaleSibling(w, path', t);
        next := p;
        path', t', h' := path'.up, Paled(path', t), if path'.red then h else h + 1;
      } else {
        if !(if left then w.right else w.left).red {
          NearUpLacking(path', t, h);
          NearUpWhole(path', t);
          RaiseNear(w, if left then w.left else w.right, left, path', t);
          path' := NearUp(path');
          Brothers(path', t);
          w := if left then p.right else p.left;
        }
        MendedRedBlack(path', t, h);
        MendedWhole(path', t);
        Mend(w, p, if left then w.right else w.left, left, path', t);
        AtPlug(path'.up, Mended(path', t));
        PlugIsWhole(path'.up, Mended(path', t));
        path', t', done := Top, Plug(path'.up, Mended(path', t)), true;
        RootIs(t');
        StraddlesTop(0, t');
        next := root;
      }
    }

    // Paints the root of a subtree black; a missing child is the sentinel, which is black.
    method Blacken(n: Node, ghost path: Path, ghost t: Tree)
      requires At(path, t) && n == Root(t, nil) && !nil.red
      modifies n`red
      ensures At(path, Blackened(t)) && !nil.red && !n.red
    {
      hide Holds;
      ghost var m := Mem();
      if t.Branch? {
        Around(path, t);
      }
      n.red := false;
      if t.Branch? {
        Painted(m, Mem(), nil, root, top, path, t, false);
      } else {
        assert Mem() == m;
      }
    }

    method DeleteFixup(node: Node, ghost path0: Path, ghost t0: Tree, ghost h0: nat) returns (ghost t: Tree)
      requires At(path0, t0) && Lacking(path0, t0, h0) && Hanging(path0, t0) && node == Root(t0, nil) && !nil.red
      modifies this`root, nodes
      ensures At(Top, t) && RedBlack(t) && InOrder(t) == Whole(path0, t0) && !nil.red
    {
      hide Holds, RbTree.At, Whole, Lacking, RedBlack;
      var n := node;
      ghost var path, h, done := path0, h0, false;
      t := t0;
      Guard(path, t);
      while n != root && !n.red
        invariant At(path, t) && n == Root(t, nil) && n in nodes && !nil.red && Whole(path, t) == Whole(path0, t0)
        invariant if done then path.Top? && RedBlack(t) else Lacking(path, t, h) && Hanging(path, t)
        invariant (n == root <==> path.Top?) && n.red == IsRed(t)
        decreases if path.Top? || IsRed(t) then 0 else Length(path)
      {
        n, path, t, h, done := DeleteStep(n, path, t, h);
        Guard(path, t);
      }
      Blacken(n, path, t);
      if done {
        RedBlackRoot(t);
      } else {
        LackingEnds(path, t, h);
      }
      BlackenedOrder(path, t);
      t := Blackened(t);
      AtPlug(path, t);
      PlugIsWhole(path, t);
      t := Plug(path, t);
    }

    // What the loop looks at.
    lemma Guard(path: Path, t: Tree)
      requires At(path, t) && !nil.red
      ensures var n := Root(t, nil); n in nodes && (n == root <==> path.Top?) && n.red == IsRed(t)
    {
      hide Holds;
      TopOutside(path, t);
      if t.Branch? {
        Around(path, t);
      } else {
        RootLinks(path, t);
      }
    }

    lemma RootLinks(path: Path, t: Tree)
      requires At(path, t)
      ensures if path.Top? then root == Root(t, nil) else root != nil
    {
      hide Whole, NoDuplicates;
      RootOnPath(Mem(), nil, root, top, path, Root(t, nil));
      Apart(path, t);
    }

    // ---- deletion: taking the node out ----

    // The leftmost node of a subtree that is not empty.
    method SubtreeMin(node: Node, ghost base: Path, ghost t0: Tree) returns (n: Node, ghost q: Path, ghost t: Tree)
      requires At(base, t0) && t0.Branch? && node == t0.node
      ensures At(Concat(q, base), t) && Plug(q, t) == t0 && LeftSpine(q) && t.Branch? && t.left.Leaf? && n == t.node
    {
      hide Holds, RbTree.At;
      n, q, t := node, Top, t0;
      Around(base, t);
      while n.left != nil
        invariant At(Concat(q, base), t) && Plug(q, t) == t0 && LeftSpine(q) && t.Branch? && n == t.node && n.left == Root(t.left, nil)
        decreases t
      {
        NotNilRoot(Concat(q, base), t);
        Over(Down(Concat(q, base), t, true), t.left);
        Around(Down(Concat(q, base), t, true), t.left);
        n := n.left;
        q, t := Down(q, t, true), t.left;
      }
      LeafLeft(Concat(q, base), t);
    }

    lemma NotNilRoot(path: Path, t: Tree)
      requires At(path, t) && t.Branch? && t.node.left != nil
      ensures t.left.Branch?
    {
      Around(path, t);
    }

    lemma LeafLeft(path: Path, t: Tree)
      requires At(path, t) && t.Branch? && t.node.left == nil
      ensures t.left.Leaf?
    {
      Around(path, t);
      if t.left.Branch? {
        Over(Down(path, t, true), t.left);
        Around(Down(path, t, true), t.left);
      }
    }

    // Hangs `subst` where `temp` hung, naming `p` as its parent.
    method Detach(temp: Node, subst: Node, p: Node, ghost path: Path)
      requires !path.Top? && temp.parent == path.node && (path.node.left == temp <==> path.InLeft?)
      requires subst != path.node && subst != temp && temp != path.node
      modifies subst, path.node
      ensures CellOf(subst) == old(CellOf(subst)).(parent := p)
      ensures CellOf(path.node) == Rechild(path, old(CellOf(path.node)), subst)
    {
      subst.parent := p;
      if temp == temp.parent.left {
        temp.parent.left := subst;
      } else {
        temp.parent.right := subst;
      }
    }

    lemma ChildApart(path: Path, t: Tree, left: bool)
      requires At(path, t) && t.Branch?
      ensures var c := Root(Child(t, left), nil);
        && c in nodes && c != t.node && (!path.Top? ==> c != path.node && path.node in nodes)
        && (Child(t, left).Branch? ==> c != nil && c != top && c.parent == t.node)
    {
      hide Holds;
      ChildFacts(Mem(), nil, root, top, path, t, left);
    }

    method Clear(n: Node)
      requires n in nodes
      modifies n, this`nodes
      ensures nodes == old(nodes) - {n} && n.red == old(n.red) && n.left == n.right == n.parent == null
    {
      n.left := null;
      n.right := null;
      n.parent := null;
      nodes := nodes - {n};
    }

    // A node below the root with at most one child.
    method DeleteSingle(node: Node, subst: Node, ghost path: Path, ghost t0: Tree) returns (ghost t: Tree)
      requires At(path, t0) && t0.Branch? && t0.node == node && !path.Top? && (t0.left.Leaf? || t0.right.Leaf?)
      requires subst == Root(Only(t0.left, t0.right), nil) && RedBlack(Plug(path, t0)) && !nil.red
      modifies this`root, this`nodes, nodes
      ensures At(Top, t) && RedBlack(t) && InOrder(t) == Without(Whole(path, t0), node)
      ensures nodes == old(nodes) - {node} && !nil.red
    {
      hide Holds, RbTree.At, Whole, Without, Lacking, Settled, RedBlack, NoDuplicates;
      ghost var m, s, root0 := Mem(), Only(t0.left, t0.right), root;
      AtHolds(path, t0);
      Around(path, t0);
      ChildApart(path, t0, t0.right.Leaf?);
      SplicedWhole(m, nil, root, top, path, t0.left, node, t0.red, t0.right);
      ghost var h := SplicedStarts(path, t0.left, node, t0.red, t0.right);
      var isBlack := !node.red;
      Detach(node, subst, node.parent, path);
      Clear(node);
      Spliced(m, Mem(), nil, root0, top, path, t0.left, node, t0.red, t0.right);
      HoldsAt(path, s);
      if isBlack {
        t := DeleteFixup(subst, path, s, h);
      } else {
        SettledRedBlack(path, s, h);
        AtPlug(path, s);
        PlugIsWhole(path, s);
        t := Plug(path, s);
      }
    }

    // The root with at most one child. Its child keeps naming it as its parent.
    method DeleteRoot(node: Node, subst: Node, ghost t0: Tree) returns (ghost t: Tree)
      requires At(Top, t0) && t0.Branch? && t0.node == node && (t0.left.Leaf? || t0.right.Leaf?)
      requires subst == Root(Only(t0.left, t0.right), nil) && RedBlack(t0) && !nil.red
      modifies this`root, this`nodes, this`top, nodes
      ensures At(Top, t) && RedBlack(t) && InOrder(t) == Without(InOrder(t0), node)
      ensures nodes == old(nodes) - {node} && top == node && !nil.red && !top.red
    {
      hide Holds, Whole, Without, NoDuplicates;
      ghost var m, s, root0, top0 := Mem(), Only(t0.left, t0.right), root, top;
      AtHolds(Top, t0);
      Around(Top, t0);
      ChildApart(Top, t0, t0.right.Leaf?);
      SplicedWhole(m, nil, root, top, Top, t0.left, node, t0.red, t0.right);
      root := subst;
      subst.red := false;
      Clear(node);
      top := node;
      SplicedRoot(m, Mem(), nil, root0, top0, t0.left, node, t0.red, t0.right);
      t := Blackened(s);
      HoldsAt(Top, t);
      StraddlesTop(0, t0);
      StraddlesTop(0, s);
      BlackenedOrder(Top, s);
      StraddlesTop(0, t);
      OnlyRedBlack(t0);
    }

    // `temp` takes over the links and the colour of `node`.
    method TakeOver(temp: Node, node: Node, ghost path: Path, ghost l: Node, ghost r: Node)
      requires node.left == l && node.right == r && node.parent == Parent(path, top) && (node == root <==> path.Top?)
      requires !path.Top? ==> (path.node.left == node <==> path.InLeft?) && path.node != temp && path.node != l && path.node != r && path.node != node
      requires temp != l && temp != r && temp != node && l != nil && l != r && node != l && node != r
      requires temp != nil && (!path.Top? ==> path.node != nil)
      modifies this`root, temp, l, (if r == nil then {} else {r}), if path.Top? then {} else {path.node}
      ensures CellOf(temp) == Cell(Parent(path, top), l, r, old(node.red))
      ensures if path.Top? then root == temp else root == old(root) && CellOf(path.node) == Rechild(path, old(CellOf(path.node)), temp)
      ensures CellOf(l) == old(CellOf(l)).(parent := temp) && (r != nil ==> CellOf(r) == old(CellOf(r)).(parent := temp))
      ensures nil.red == old(nil.red) && nil.parent == old(nil.parent)
    {
      temp.parent := node.parent;
      if node == root {
        root := temp;
      } else if node.parent.left == node {
        node.parent.left := temp;
      } else {
        node.parent.right := temp;
      }
      temp.right := node.right;
      temp.left := node.left;
      if temp.left != nil {
        temp.left.parent := temp;
      }
      if temp.right != nil {
        temp.right.parent := temp;
      }
      temp.red := node.red;
    }

    ghost function MemWithout(temp: Node): (m: Memory)
      reads this`nodes, nodes
      ensures m.Keys == nodes - {temp}
    {
      map k | k in nodes && k != temp :: CellOf(k)
    }

    // Memory without `temp`, its child naming `p` as its parent.
    ghost function Patched(temp: Node, subst: Node, p: Node): (m: Memory)
      requires subst in nodes && subst != temp
      reads this`nodes, nodes
      ensures m.Keys == nodes - {temp}
    {
      MemWithout(temp)[subst := CellOf(subst).(parent := p)]
    }

    // The successor `temp` of `node` is taken out of its place.
    method PullOut(temp: Node, subst: Node, node: Node, ghost path: Path, ghost t0: Tree, ghost q: Path, ghost kr: bool, ghost s: Tree)
      requires At(path, t0) && t0.Branch? && t0.node == node && !nil.red
      requires Plug(q, Branch(Leaf, temp, kr, s)) == t0.right && LeftSpine(q) && subst == Root(s, nil)
      modifies nodes
      ensures var full := Concat(q, InRight(path, t0.left, node, t0.red));
        && temp in nodes && temp != nil && temp != top && temp != subst && subst in nodes && !full.Top?
        && Holds(Patched(temp, subst, full.node), nil, root, top, full, s)
        && subst != node && (t0.left.Branch? ==> t0.left.node != subst) && (!path.Top? ==> path.node != subst)
        && subst.parent == if q.Top? then temp else full.node
      ensures !nil.red && nil in nodes
    {
      hide Holds, Whole, NoDuplicates, Linked, PathLinked;
      ghost var m0, l, red := Mem(), t0.left, t0.red;
      ghost var full := Concat(q, InRight(path, l, node, red));
      AtHolds(path, t0);
      TopOutside(path, t0);
      Successor(m0, nil, root, top, path, l, node, red, t0.right, q, temp, kr, s);
      Detach(temp, subst, if temp.parent == node then temp else temp.parent, full);
      Spliced(m0, Patched(temp, subst, full.node), nil, root, top, full, Leaf, temp, kr, s);
    }

    method PutIn(temp: Node, node: Node, ghost path: Path, ghost a: Node, ghost b: Node, ghost red: bool)
      requires node in nodes && CellOf(node) == Cell(Parent(path, top), a, b, red) && (node == root <==> path.Top?)
      requires a in nodes && b in nodes && a != nil && a != b && node != a && node != b && node != nil
      requires !path.Top? ==>
        && path.node in nodes && path.node != nil && path.node != a && path.node != b && path.node != node && path.node != temp
        && (path.node.left == node <==> path.InLeft?)
      requires temp in nodes && temp != nil && temp != a && temp != b && temp != node
      modifies this`root, this`nodes, nodes
      ensures TakenOver(old(MemWithout(temp)), Mem(), nil, old(root), root, top, path, a, node, red, b, temp)
      ensures nodes == old(nodes) - {node} && nil.red == old(nil.red) && nil.parent == old(nil.parent)
    {
      TakeOver(temp, node, path, a, b);
      Clear(node);
    }

    // The successor `temp` of `node` is put in the place of `node`.
    method SwapOut(temp: Node, subst: Node, node: Node, ghost path: Path, ghost t0: Tree, ghost q: Path, ghost kr: bool, ghost s: Tree)
      requires At(path, t0) && t0.Branch? && t0.node == node && t0.left.Branch? && !nil.red
      requires Plug(q, Branch(Leaf, temp, kr, s)) == t0.right && LeftSpine(q) && subst == Root(s, nil)
      modifies this`root, this`nodes, nodes
      ensures At(Concat(q, InRight(path, t0.left, temp, t0.red)), s)
      ensures nodes == old(nodes) - {node} && !nil.red && (s.Leaf? ==> nil.parent == if q.Top? then temp else q.node)
    {
      hide Holds, Whole, NoDuplicates, Linked, PathLinked;
      ghost var root0, l, red := root, t0.left, t0.red;
      ghost var full := Concat(q, InRight(path, l, node, red));
      PullOut(temp, subst, node, path, t0, q, kr, s);
      ghost var m1 := Patched(temp, subst, full.node);
      SuccessorOut(m1, nil, root, top, path, l, node, red, q, s);
      TakeOverSite(m1, nil, root, top, path, l, node, red, Plug(q, s));
      ConcatEnd(q, InRight(path, l, node, red));
      ghost var m, b := MemWithout(temp), Root(Plug(q, s), nil);
      PutIn(temp, node, path, l.node, b, red);
      TakenOverPatched(m, m1, Mem(), nil, root0, root, top, path, l.node, node, red, b, temp, subst, full.node);
      SuccessorNamed(m1, Mem(), nil, root0, root, top, path, l, node, red, q, temp, s);
      HoldsAt(Concat(q, InRight(path, l, temp, red)), s);
    }

    // A node with two children.
    method DeleteDouble(node: Node, ghost path: Path, ghost t0: Tree) returns (ghost t: Tree)
      requires At(path, t0) && t0.Branch? && t0.node == node && t0.left.Branch? && t0.right.Branch?
      requires RedBlack(Plug(path, t0)) && !nil.red
      modifies this`root, this`nodes, nodes
      ensures At(Top, t) && RedBlack(t) && InOrder(t) == Without(Whole(path, t0), node)
      ensures nodes == old(nodes) - {node} && !nil.red
    {
      hide Holds, RbTree.At, Whole, Without, Balanced, Proper, PathBalanced, PathProper, BlackRoot, RedBlack;
      ghost var l, red := t0.left, t0.red;
      ghost var base := InRight(path, l, node, red);
      Around(path, t0);
      Over(base, t0.right);
      var temp; ghost var q, mt;
      temp, q, mt := SubtreeMin(node.right, base, t0.right);
      ghost var full, kr, s := Concat(q, base), mt.red, mt.right;
      Around(full, mt);
      ConcatPlug(q, base, mt);
      AtHolds(path, t0);
      SuccessorWhole(Mem(), nil, root, top, path, l, node, red, t0.right, q, temp, kr, s);
      ghost var h := SplicedStarts(full, Leaf, temp, kr, s);
      ghost var full' := Concat(q, InRight(path, l, temp, red));
      PathRenamed(q, path, l, node, temp, red, if kr then h else h + 1);
      ConcatEnd(q, InRight(path, l, temp, red));
      // The leftmost node has no left child.
      var subst := temp.right;
      var isBlack := !temp.red;
      SwapOut(temp, subst, node, path, t0, q, kr, s);
      if isBlack {
        t := DeleteFixup(subst, full', s, h);
      } else {
        SettledRedBlack(full', s, h);
        AtPlug(full', s);
        PlugIsWhole(full', s);
        t := Plug(full', s);
      }
    }

    // Takes `node` out of the tree.
    method Delete(node: Node)
      requires Valid() && node in nodes && node != nil
      modifies this, nodes
      ensures Valid() && nodes == old(nodes) - {node} && size == old(size) - 1
      ensures InOrder(tree) == Without(old(InOrder(tree)), node)
      ensures top == old(top) || top == node
    {
      hide Holds, RbTree.At, Whole, Without, RedBlack, Sorted;
      TopOutside(Top, tree);
      MemberOf(tree, node);
      ghost var path, t := Located(Top, tree, node);
      AtPlug(path, t);
      PlugIsWhole(path, t);
      WithoutOne(InOrder(tree), node);
      Around(path, t);
      MissingChild(path, t);
      size := size - 1;
      if node.left == nil || node.right == nil {
        var subst := if node.left == nil then node.right else node.left;
        if node == root {
          tree := DeleteRoot(node, subst, t);
        } else {
          tree := DeleteSingle(node, subst, path, t);
        }
      } else {
        tree := DeleteDouble(node, path, t);
      }
      TopOutside(Top, tree);
    }

    lemma MemberOf(t: Tree, n: Node)
      requires At(Top, t) && n in nodes && n != nil
      ensures n in InOrder(t)
    {
    }

    lemma MissingChild(path: Path, t: Tree)
      requires At(path, t) && t.Branch?
      ensures t.node.left == nil <==> t.left.Leaf?
      ensures t.node.right == nil <==> t.right.Leaf?
    {
      hide Holds;
      Around(path, t);
      ChildApart(path, t, true);
      ChildApart(path, t, false);
    }

    lemma AtHolds(path: Path, t: Tree)
      requires At(path, t)
      ensures Holds(Mem(), nil, root, top, path, t)
    {
    }

    lemma HoldsAt(path: Path, t: Tree)
      requires Holds(Mem(), nil, root, top, path, t)
      ensures At(path, t)
    {
    }

    // ---- searching ----

    method Search(key: int) returns (r: Node?)
      requires Valid()
      ensures r == null ==> forall n <- InOrder(tree) :: n.key != key
      ensures r != null ==> r in nodes && r != nil && r in InOrder(tree) && r.key == key
    {
      hide Holds, RbTree.At, Whole, RedBlack, Sorted;
      ghost var path, t := Top, tree;
      RootIs(tree);
      StraddlesTop(key, tree);
      var node := root;
      while node != nil
        invariant At(path, t) && node == Root(t, nil) && Whole(path, t) == InOrder(tree)
        invariant (forall n <- Before(path) :: n.key < key) && (forall n <- After(path) :: key < n.key)
        decreases t
      {
        Around2(path, t);
        ghost var left := key < node.key;
        SearchDown(path, t, key);
        Over(Down(path, t, left), Child(t, left));
        WholeAbove(Down(path, t, left), Child(t, left));
        if key < node.key {
          node := node.left;
        } else if key > node.key {
          node := node.right;
        } else {
          return node;
        }
        path, t := Down(path, t, left), Child(t, left);
      }
      NotNil(path, t);
      HoleOrder(path);
      r := null;
    }

    lemma Around2(path: Path, t: Tree)
      requires At(path, t) && Root(t, nil) != nil
      ensures t.Branch? && t.node in nodes && t.node.left == Root(t.left, nil) && t.node.right == Root(t.right, nil)
    {
      NotLeaf(path, t);
      Around(path, t);
    }

    method Lookup(key: int) returns (r: Node?)
      requires Valid()
      ensures tree.Leaf? ==> r == null
      ensures tree.Branch? ==> InOrder(tree) != [] && r == Clockwise(InOrder(tree), key) && r in nodes
    {
      hide Holds, RbTree.At, Whole, RedBlack, Sorted, Clockwise;
      RootIs(tree);
      if root == nil {
        NotNil(Top, tree);
        return null;
      }
      NotLeaf(Top, tree);
      ghost var path, t := Top, tree;
      StraddlesTop(key, tree);
      r := null;
      var temp := root;
      while temp != nil
        invariant At(path, t) && temp == Root(t, nil) && Whole(path, t) == InOrder(tree)
        invariant (forall n <- Before(path) :: n.key < key) && (forall n <- After(path) :: key <= n.key)
        invariant if r == null then After(path) == [] else After(path) != [] && r == After(path)[0] && r in nodes
        decreases t
      {
        Around2(path, t);
        ghost var left := key <= temp.key;
        LookupDown(path, t, key);
        Over(Down(path, t, left), Child(t, left));
        WholeAbove(Down(path, t, left), Child(t, left));
        if key <= temp.key {
          r := temp;
          temp := temp.left;
        } else {
          temp := temp.right;
        }
        path, t := Down(path, t, left), Child(t, left);
      }
      NotNil(path, t);
      HoleOrder(path);
      ClockwiseAt(Before(path), After(path), key);
      if r == null {
        ghost var q, t1;
        r, q, t1 := SubtreeMin(root, Top, tree);
        Around(Concat(q, Top), t1);
        LeastFirst(q, t1, tree);
      }
    }
  }

  lemma HoleOrder(path: Path)
    ensures Whole(path, Leaf) == Before(path) + After(path)
  {
  }

  lemma SearchDown(path: Path, t: Tree, key: int)
    requires t.Branch? && Sorted(Whole(path, t))
    requires (forall n <- Before(path) :: n.key < key) && (forall n <- After(path) :: key < n.key)
    ensures t.node in Whole(path, t)
    ensures key < t.node.key ==> var p := Down(path, t, true); (forall n <- Before(p) :: n.key < key) && (forall n <- After(p) :: key < n.key)
    ensures key > t.node.key ==> var p := Down(path, t, false); (forall n <- Before(p) :: n.key < key) && (forall n <- After(p) :: key < n.key)
  {
    WholeDown(path, t);
    var a, b := Before(path) + InOrder(t.left), InOrder(t.right) + After(path);
    SortedAround(a, t.node, b);
    assert After(Down(path, t, true)) == [t.node] + b;
    assert Before(Down(path, t, false)) == a + [t.node];
  }

  lemma LookupDown(path: Path, t: Tree, key: int)
    requires t.Branch? && Sorted(Whole(path, t))
    requires (forall n <- Before(path) :: n.key < key) && (forall n <- After(path) :: key <= n.key)
    ensures var p := Down(path, t, key <= t.node.key);
      && (forall n <- Before(p) :: n.key < key) && (forall n <- After(p) :: key <= n.key)
      && (if key <= t.node.key then After(p) != [] && After(p)[0] == t.node else After(p) == After(path))
  {
    WholeDown(path, t);
    var a, b := Before(path) + InOrder(t.left), InOrder(t.right) + After(path);
    SortedAround(a, t.node, b);
    assert After(Down(path, t, true)) == [t.node] + b;
    assert Before(Down(path, t, false)) == a + [t.node];
  }

  lemma ClockwiseAt(a: seq<Node>, b: seq<Node>, key: int)
    requires (forall k <- a :: k.key < key) && (forall k <- b :: key <= k.key) && a + b != []
    ensures Clockwise(a + b, key) == if b == [] then (a + b)[0] else b[0]
  {
    RankBetween(a, b, key);
  }

  lemma LeastFirst(q: Path, t: Tree, tree: Tree)
    requires LeftSpine(q) && t.Branch? && t.left.Leaf? && Plug(q, t) == tree
    ensures InOrder(tree) != [] && InOrder(tree)[0] == t.node
  {
    SpineOrder(q);
    PlugIsWhole(q, t);
    assert InOrder(t) == [t.node] + InOrder(t.right);
  }

  lemma OnlyRedBlack(t: Tree)
    requires RedBlack(t) && t.Branch? && (t.left.Leaf? || t.right.Leaf?)
    ensures RedBlack(Blackened(Only(t.left, t.right)))
  {
    var h: nat :| Balanced(t, h);
    var s := Only(t.left, t.right);
    assert Balanced(s, h - 1) && Proper(s);
    var k: nat := if IsRed(s) then h else h - 1;
    assert Balanced(Blackened(s), k);
  }

  lemma RedBlackRoot(t: Tree)
    requires RedBlack(t)
    ensures Blackened(t) == t && Plug(Top, t) == t
  {
  }

  lemma BlackenedOrder(path: Path, t: Tree)
    ensures Whole(path, Blackened(t)) == Whole(path, t)
  {
  }

  lemma SiblingUpEnd(path: Path)
    requires !path.Top? && Sibling(path).Branch?
    ensures var q := SiblingUp(path);
      !q.Top? && q.node == path.node && q.red && (q.InLeft? <==> path.InLeft?) && Length(q) == Length(path) + 1
  {
  }

  lemma NoTop(m: Memory, nil: Node, root: Node, top: Node)
    requires Holds(m, nil, root, top, Top, Leaf)
    ensures Holds(m, nil, root, nil, Top, Leaf)
  {
  }

  lemma InsertingStarts(path: Path, tree: Tree, node: Node)
    requires Plug(path, Leaf) == tree && RedBlack(tree)
    ensures Inserting(path, Branch(Leaf, node, true, Leaf), 0)
  {
    var k: nat :| Balanced(tree, k);
    var h := PathOf(path, Leaf, k);
  }

  lemma InsertedOrder(path: Path, node: Node, before: seq<Node>)
    requires Whole(path, Leaf) == before && Straddles(path, node.key) && Sorted(before)
    ensures var s := Whole(path, Branch(Leaf, node, true, Leaf));
      s == Inserted(before, node) && Sorted(s) && |s| == |before| + 1
  {
    var a, b := Before(path), After(path);
    assert before == a + b;
    assert InOrder(Branch(Leaf, node, true, Leaf)) == [node];
    InsertedBetween(a, b, node);
    SortedBetween(a, b, node);
  }

  lemma StraddlesTop(key: int, t: Tree)
    ensures Straddles(Top, key) && Whole(Top, t) == InOrder(t)
  {
  }
}
