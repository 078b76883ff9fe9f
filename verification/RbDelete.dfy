// What deletion does to the shape of a red-black tree: a subtree that has become one black
// node too short is brought back to height.

module RbDelete {
  import opened RbShape

  // The subtree at the end of `path` lacks one black node; it may be red at its root, since
  // painting that black is what ends the repair.
  ghost predicate Lacking(path: Path, t: Tree, h: nat) {
    && Balanced(t, h) && PathBalanced(path, h + 1) && PathProper(path) && BlackRoot(path)
    && (t.Branch? ==> Proper(Black(t)))
  }

  // What is known of the sibling.
  lemma LackingSibling(path: Path, t: Tree, h: nat)
    requires Lacking(path, t, h) && !path.Top?
    ensures var w := Sibling(path);
      && w.Branch? && Balanced(w, h + 1) && Proper(w) && (path.red ==> !w.red && !RedEnd(path.up))
      && PathBalanced(path.up, if path.red then h + 1 else h + 2) && PathProper(path.up) && BlackRoot(path.up)
      && (path.up.Top? ==> !path.red)
  {
  }

  // ---- a red sibling takes the parent's place ----

  function SiblingUp(path: Path): Path
    requires !path.Top? && Sibling(path).Branch?
  {
    var w := Sibling(path);
    if path.InLeft? then InLeft(InLeft(path.up, w.node, false, w.right), path.node, true, w.left)
    else InRight(InRight(path.up, w.left, w.node, false), w.right, path.node, true)
  }

  lemma SiblingUpLacking(path: Path, t: Tree, h: nat)
    requires Lacking(path, t, h) && !path.Top? && IsRed(Sibling(path)) && !IsRed(t)
    ensures Lacking(SiblingUp(path), t, h) && !IsRed(Sibling(SiblingUp(path)))
  {
    LackingSibling(path, t, h);
    var up := SiblingUp(path).up;
    assert PathBalanced(up, h + 1) && PathProper(up) && BlackRoot(up);
  }

  // ---- a black sibling with black children turns red ----

  function Paled(path: Path, t: Tree): Tree
    requires !path.Top? && Sibling(path).Branch?
  {
    var w := Sibling(path).(red := true);
    if path.InLeft? then Branch(t, path.node, path.red, w) else Branch(w, path.node, path.red, t)
  }

  lemma PaledLacking(path: Path, t: Tree, h: nat)
    requires Lacking(path, t, h) && !path.Top? && !IsRed(Sibling(path)) && !IsRed(t) && Sibling(path).Branch?
    requires !IsRed(Sibling(path).left) && !IsRed(Sibling(path).right)
    ensures Lacking(path.up, Paled(path, t), if path.red then h else h + 1)
    ensures Paled(path, t).Branch? && Paled(path, t).node == path.node && (IsRed(Paled(path, t)) <==> path.red)
  {
    LackingSibling(path, t, h);
  }

  // ---- the far child of the sibling made red ----

  function Near(path: Path): Tree
    requires !path.Top? && Sibling(path).Branch?
  {
    if path.InLeft? then Sibling(path).left else Sibling(path).right
  }

  function Far(path: Path): Tree
    requires !path.Top? && Sibling(path).Branch?
  {
    if path.InLeft? then Sibling(path).right else Sibling(path).left
  }

  function NearUp(path: Path): Path
    requires !path.Top? && Sibling(path).Branch? && Near(path).Branch?
  {
    var w := Sibling(path);
    if path.InLeft? then path.(right := Branch(w.left.left, w.left.node, false, Branch(w.left.right, w.node, true, w.right)))
    else path.(left := Branch(Branch(w.left, w.node, true, w.right.left), w.right.node, false, w.right.right))
  }

  lemma NearUpLacking(path: Path, t: Tree, h: nat)
    requires Lacking(path, t, h) && !path.Top? && !IsRed(t) && Sibling(path).Branch? && !Sibling(path).red
    requires IsRed(Near(path)) && !IsRed(Far(path))
    ensures var q := NearUp(path); !q.Top? && q.up == path.up && q.node == path.node && (q.InLeft? <==> path.InLeft?)
    ensures Lacking(NearUp(path), t, h) && Sibling(NearUp(path)).Branch? && !Sibling(NearUp(path)).red && IsRed(Far(NearUp(path)))
  {
    LackingSibling(path, t, h);
    var w := Sibling(path);
    assert Proper(Near(path)) && Proper(Far(path));
    if path.InLeft? {
      var far := Branch(w.left.right, w.node, true, w.right);
      assert Balanced(far, h) && Proper(far);
    } else {
      var far := Branch(w.left, w.node, true, w.right.left);
      assert Balanced(far, h) && Proper(far);
    }
  }

  // ---- a rotation that makes up for the lack ----

  function Mended(path: Path, t: Tree): Tree
    requires !path.Top? && Sibling(path).Branch? && Far(path).Branch?
  {
    var w := Sibling(path);
    if path.InLeft? then Branch(Branch(t, path.node, false, w.left), w.node, path.red, Black(w.right))
    else Branch(Black(w.left), w.node, path.red, Branch(w.right, path.node, false, t))
  }

  lemma MendedRedBlack(path: Path, t: Tree, h: nat)
    requires Lacking(path, t, h) && !path.Top? && !IsRed(t) && Sibling(path).Branch? && !Sibling(path).red && IsRed(Far(path))
    ensures RedBlack(Plug(path.up, Mended(path, t)))
  {
    LackingSibling(path, t, h);
    var m := Mended(path, t);
    assert Balanced(Black(Far(path)), h + 1) && Proper(Far(path)) && Proper(Near(path)) && Proper(Black(Far(path)));
    assert t.Branch? ==> Black(t) == t;
    var near := if path.InLeft? then Branch(t, path.node, false, Near(path)) else Branch(Near(path), path.node, false, t);
    assert Proper(near) && Balanced(near, h + 1);
    var g := if path.red then h + 1 else h + 2;
    assert Balanced(m, g) && Proper(m);
    var k := PlugBalanced(path.up, m, g);
    PlugProper(path.up, m);
    PlugBlack(path.up, m);
  }

  // ---- the end ----

  function Blackened(t: Tree): Tree {
    if t.Leaf? then t else Black(t)
  }

  lemma LackingEnds(path: Path, t: Tree, h: nat)
    requires Lacking(path, t, h) && (path.Top? || IsRed(t))
    ensures RedBlack(Plug(path, Blackened(t)))
  {
    var b := Blackened(t);
    if path.Top? {
      assert Balanced(b, if IsRed(t) then h + 1 else h);
    } else {
      assert Balanced(b, h + 1);
      var k := PlugBalanced(path, b, h + 1);
      PlugProper(path, b);
      PlugBlack(path, b);
    }
  }

  // Nothing is lacking.
  ghost predicate Settled(path: Path, t: Tree, h: nat) {
    Balanced(t, h) && Proper(t) && !IsRed(t) && PathBalanced(path, h) && PathProper(path) && BlackRoot(path)
  }

  lemma SettledRedBlack(path: Path, t: Tree, h: nat)
    requires Settled(path, t, h)
    ensures RedBlack(Plug(path, t))
  {
    var k := PlugBalanced(path, t, h);
    PlugProper(path, t);
    PlugBlack(path, t);
  }

  // A node with at most one child is taken out, and its child hung in its place: a red node
  // is not missed.
  lemma SplicedStarts(path: Path, l: Tree, n: Node, red: bool, r: Tree) returns (h: nat)
    requires (l.Leaf? || r.Leaf?) && RedBlack(Plug(path, Branch(l, n, red, r)))
    ensures var s := if l.Leaf? then r else l;
      if red then Settled(path, s, h) else Lacking(path, s, h)
  {
    var k: nat :| Balanced(Plug(path, Branch(l, n, red, r)), k);
    var g := PathOf(path, Branch(l, n, red, r), k);
    h := if red then g else g - 1;
  }

  // Which node a path passes makes no difference to heights and colours.
  lemma {:induction false} PathRenamed(q: Path, up: Path, l: Tree, n: Node, n': Node, red: bool, h: nat)
    ensures var p, p' := Concat(q, InRight(up, l, n, red)), Concat(q, InRight(up, l, n', red));
      && PathBalanced(p, h) == PathBalanced(p', h) && PathProper(p) == PathProper(p') && RedEnd(p) == RedEnd(p') && BlackRoot(p) == BlackRoot(p')
      && !p.Top? && !p'.Top? && (q.InLeft? || q.Top? ==> p'.node == if q.Top? then n' else q.node)
    decreases q
  {
    if !q.Top? {
      PathRenamed(q.up, up, l, n, n', red, if q.red then h else h + 1);
    }
  }

  // ---- the steps keep the order of the nodes ----

  lemma SiblingUpWhole(path: Path, t: Tree)
    requires !path.Top? && Sibling(path).Branch?
    ensures Whole(SiblingUp(path), t) == Whole(path, t)
  {
    hide Whole;
    var w, path' := Sibling(path), SiblingUp(path);
    WholeAbove(path, t);
    WholeAbove(path', t);
    WholeAbove(path'.up, Above(path', t));
    var o, a, b := InOrder(t), InOrder(w.left), InOrder(w.right);
    if path.InLeft? {
      assert o + [path.node] + (a + [w.node] + b) == (o + [path.node] + a) + [w.node] + b;
    } else {
      assert (a + [w.node] + b) + [path.node] + o == a + [w.node] + (b + [path.node] + o);
    }
    SameOrder(path.up, Above(path, t), Above(path'.up, Above(path', t)));
  }

  lemma PaledWhole(path: Path, t: Tree)
    requires !path.Top? && Sibling(path).Branch?
    ensures Whole(path.up, Paled(path, t)) == Whole(path, t)
  {
    hide Whole;
    WholeAbove(path, t);
    SameOrder(path.up, Above(path, t), Paled(path, t));
  }

  lemma NearUpWhole(path: Path, t: Tree)
    requires !path.Top? && Sibling(path).Branch? && Near(path).Branch?
    ensures Whole(NearUp(path), t) == Whole(path, t)
  {
    hide Whole;
    WholeAbove(path, t);
    WholeAbove(NearUp(path), t);
    var w := Sibling(path);
    if path.InLeft? {
      var a, b, c := InOrder(w.left.left), InOrder(w.left.right), InOrder(w.right);
      assert InOrder(w) == (a + [w.left.node] + b) + [w.node] + c == a + [w.left.node] + (b + [w.node] + c);
    } else {
      var a, b, c := InOrder(w.left), InOrder(w.right.left), InOrder(w.right.right);
      assert InOrder(w) == a + [w.node] + (b + [w.right.node] + c) == (a + [w.node] + b) + [w.right.node] + c;
    }
    assert InOrder(Sibling(NearUp(path))) == InOrder(w);
    SameOrder(path.up, Above(path, t), Above(NearUp(path), t));
  }

  lemma MendedWhole(path: Path, t: Tree)
    requires !path.Top? && Sibling(path).Branch? && Far(path).Branch?
    ensures Whole(path.up, Mended(path, t)) == Whole(path, t)
  {
    hide Whole;
    WholeAbove(path, t);
    var w := Sibling(path);
    var o, a, b := InOrder(t), InOrder(w.left), InOrder(w.right);
    if path.InLeft? {
      assert o + [path.node] + (a + [w.node] + b) == (o + [path.node] + a) + [w.node] + b;
    } else {
      assert (a + [w.node] + b) + [path.node] + o == a + [w.node] + (b + [path.node] + o);
    }
    SameOrder(path.up, Above(path, t), Mended(path, t));
  }
}
