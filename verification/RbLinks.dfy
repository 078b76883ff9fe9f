// How the links of the nodes spell out a tree, and which links a rotation changes.

module RbLinks {
  import opened Words
  import opened RbShape

  datatype Cell = Cell(parent: Node?, left: Node?, right: Node?, red: bool)

  type Memory = map<Node, Cell>

  function Root(t: Tree, nil: Node): Node {
    if t.Leaf? then nil else t.node
  }

  // The node above the end of `path`; above the root stands whatever its parent link says.
  function Parent(path: Path, top: Node): Node {
    if path.Top? then top else path.node
  }

  function Members(s: seq<Node>): set<Node> {
    set n | n in s
  }

  // The links of `t` in memory, below `parent`.
  ghost predicate Linked(m: Memory, nil: Node, t: Tree, parent: Node) {
    t.Branch? ==>
      && t.node in m && t.node != nil && m[t.node] == Cell(parent, Root(t.left, nil), Root(t.right, nil), t.red)
      && Linked(m, nil, t.left, t.node) && Linked(m, nil, t.right, t.node)
  }

  // The links around `path`, which ends above the subtree of root `child`.
  ghost predicate PathLinked(m: Memory, nil: Node, root: Node, top: Node, path: Path, child: Node) {
    match path
    case Top => root == child
    case InLeft(up, n, red, r) =>
      && n in m && n != nil && m[n] == Cell(Parent(up, top), child, Root(r, nil), red)
      && Linked(m, nil, r, n) && PathLinked(m, nil, root, top, up, n)
    case InRight(up, l, n, red) =>
      && n in m && n != nil && m[n] == Cell(Parent(up, top), Root(l, nil), child, red)
      && Linked(m, nil, l, n) && PathLinked(m, nil, root, top, up, n)
  }

  // A tree in memory, with the subtree `t` at the end of `path` singled out.
  ghost predicate Holds(m: Memory, nil: Node, root: Node, top: Node, path: Path, t: Tree) {
    && m.Keys == Members(Whole(path, t)) + {nil} && NoDuplicates(Whole(path, t))
    && nil !in Whole(path, t) && top !in Whole(path, t)
    && Linked(m, nil, t, Parent(path, top)) && PathLinked(m, nil, root, top, path, Root(t, nil))
  }

  // ---- moving the place that is singled out ----

  lemma HoldsAbove(m: Memory, nil: Node, root: Node, top: Node, path: Path, t: Tree)
    requires !path.Top?
    ensures Holds(m, nil, root, top, path, t) <==> Holds(m, nil, root, top, path.up, Above(path, t))
  {
    hide Whole, Members, NoDuplicates;
    WholeAbove(path, t);
  }

  lemma {:induction false} HoldsPlug(m: Memory, nil: Node, root: Node, top: Node, path: Path, t: Tree)
    ensures Holds(m, nil, root, top, path, t) <==> Holds(m, nil, root, top, Top, Plug(path, t))
    decreases path
  {
    hide Holds;
    if !path.Top? {
      HoldsAbove(m, nil, root, top, path, t);
      HoldsPlug(m, nil, root, top, path.up, Above(path, t));
    }
  }

  // ---- what stays ----

  lemma {:induction false} LinkedFrame(m: Memory, m': Memory, nil: Node, t: Tree, parent: Node)
    requires Linked(m, nil, t, parent)
    requires forall n <- InOrder(t) :: n in m && n in m' && m'[n] == m[n]
    ensures Linked(m', nil, t, parent)
  {
    if t.Branch? {
      assert t.node in InOrder(t);
      assert forall n <- InOrder(t.left) :: n in InOrder(t);
      assert forall n <- InOrder(t.right) :: n in InOrder(t);
      LinkedFrame(m, m', nil, t.left, t.node);
      LinkedFrame(m, m', nil, t.right, t.node);
    }
  }

  // A subtree moved under another parent.
  lemma Adopted(m: Memory, m': Memory, nil: Node, t: Tree, parent: Node, parent': Node)
    requires Linked(m, nil, t, parent) && NoDuplicates(InOrder(t))
    requires forall n <- InOrder(t) :: n in m && n in m' && (n != Root(t, nil) ==> m'[n] == m[n])
    requires t.Branch? ==> m'[t.node] == m[t.node].(parent := parent')
    ensures Linked(m', nil, t, parent')
  {
    if t.Branch? {
      Inside(InOrder(t.left), [t.node], InOrder(t.right));
      LinkedFrame(m, m', nil, t.left, t.node);
      LinkedFrame(m, m', nil, t.right, t.node);
    }
  }

  // Three stretches of a sequence without duplicates have nothing in common.
  lemma Inside(a: seq<Node>, b: seq<Node>, c: seq<Node>)
    requires NoDuplicates(a + b + c)
    ensures NoDuplicates(a) && NoDuplicates(b) && NoDuplicates(c)
    ensures forall n <- a :: n !in b && n !in c && n in a + b + c
    ensures forall n <- b :: n !in c && n in a + b + c
    ensures forall n <- c :: n in a + b + c
  {
    var s := a + b + c;
    assert forall i | 0 <= i < |a| :: s[i] == a[i];
    assert forall i | 0 <= i < |b| :: s[|a| + i] == b[i];
    assert forall i | 0 <= i < |c| :: s[|a| + |b| + i] == c[i];
  }

  lemma {:induction false} PathFrame(m: Memory, m': Memory, nil: Node, root: Node, top: Node, path: Path, child: Node)
    requires PathLinked(m, nil, root, top, path, child)
    requires forall n <- Before(path) :: n in m && n in m' && m'[n] == m[n]
    requires forall n <- After(path) :: n in m && n in m' && m'[n] == m[n]
    ensures PathLinked(m', nil, root, top, path, child)
    decreases path
  {
    match path
    case Top =>
    case InLeft(up, n, red, r) =>
      assert n in After(path);
      assert forall k <- InOrder(r) :: k in After(path);
      assert forall k <- After(up) :: k in After(path);
      LinkedFrame(m, m', nil, r, n);
      PathFrame(m, m', nil, root, top, up, n);
    case InRight(up, l, n, red) =>
      assert n in Before(path);
      assert forall k <- InOrder(l) :: k in Before(path);
      assert forall k <- Before(up) :: k in Before(path);
      LinkedFrame(m, m', nil, l, n);
      PathFrame(m, m', nil, root, top, up, n);
  }

  // The cell of the node at the end of a path, when the child there is replaced.
  function Rechild(path: Path, c: Cell, child: Node): Cell
    requires !path.Top?
  {
    if path.InLeft? then c.(left := child) else c.(right := child)
  }

  // Another subtree hung from the same place.
  lemma Rehung(m: Memory, m': Memory, nil: Node, root: Node, root': Node, top: Node, path: Path, child: Node, child': Node)
    requires PathLinked(m, nil, root, top, path, child) && NoDuplicates(Before(path) + After(path))
    requires forall n <- Before(path) :: n in m && n in m' && (n != Parent(path, top) ==> m'[n] == m[n])
    requires forall n <- After(path) :: n in m && n in m' && (n != Parent(path, top) ==> m'[n] == m[n])
    requires if path.Top? then root' == child' else root' == root && path.node in m' && path.node in m && m'[path.node] == Rechild(path, m[path.node], child')
    ensures PathLinked(m', nil, root', top, path, child')
  {
    match path
    case Top =>
    case InLeft(up, n, red, r) =>
      assert Before(path) + After(path) == Before(up) + [n] + (InOrder(r) + After(up));
      Inside(Before(up), [n], InOrder(r) + After(up));
      assert forall k <- InOrder(r) :: k in After(path) && k != n by { assert forall k <- InOrder(r) :: k in InOrder(r) + After(up); }
      assert forall k <- After(up) :: k in After(path) && k != n by { assert forall k <- After(up) :: k in InOrder(r) + After(up); }
      LinkedFrame(m, m', nil, r, n);
      PathFrame(m, m', nil, root, top, up, n);
    case InRight(up, l, n, red) =>
      assert Before(path) + After(path) == (Before(up) + InOrder(l)) + [n] + After(up);
      Inside(Before(up) + InOrder(l), [n], After(up));
      assert forall k <- InOrder(l) :: k in Before(path) && k != n by { assert forall k <- InOrder(l) :: k in Before(up) + InOrder(l); }
      assert forall k <- Before(up) :: k in Before(path) && k != n by { assert forall k <- Before(up) :: k in Before(up) + InOrder(l); }
      LinkedFrame(m, m', nil, l, n);
      PathFrame(m, m', nil, root, top, up, n);
  }

  // ---- rotations and colours ----

  // Memory changes at most at `x`, `y`, the root of `b`, and the node that `path` ends at.
  ghost predicate Elsewhere(m: Memory, m': Memory, touched: set<Node>) {
    m'.Keys == m.Keys && forall n <- m.Keys :: n !in touched ==> m'[n] == m[n]
  }

  // The places of a whole tree, kept apart.
  lemma Apart(path: Path, t: Tree)
    requires NoDuplicates(Whole(path, t))
    ensures NoDuplicates(InOrder(t)) && NoDuplicates(Before(path) + After(path))
    ensures forall n <- InOrder(t) :: n !in Before(path) && n !in After(path) && n in Whole(path, t)
    ensures forall n <- Before(path) :: n in Whole(path, t)
    ensures forall n <- After(path) :: n in Whole(path, t)
    ensures !path.Top? ==> path.node in Before(path) + After(path)
  {
    Inside(Before(path), InOrder(t), After(path));
    Ends(Before(path), InOrder(t), After(path));
    PathEnds(path);
  }

  lemma Ends(a: seq<Node>, b: seq<Node>, c: seq<Node>)
    requires NoDuplicates(a + b + c)
    ensures NoDuplicates(a + c)
  {
    forall i, j | 0 <= i < j < |a + c|
      ensures (a + c)[i] != (a + c)[j]
    {
      var k, l := if i < |a| then i else i + |b|, if j < |a| then j else j + |b|;
      assert (a + b + c)[k] == (a + c)[i] && (a + b + c)[l] == (a + c)[j];
    }
  }

  lemma PathEnds(path: Path)
    ensures !path.Top? ==> path.node in Before(path) + After(path)
  {
    if path.InLeft? {
      assert path.node == After(path)[0];
    } else if path.InRight? {
      assert path.node == Before(path)[|Before(path)| - 1];
    }
  }

  // A subtree with the same nodes takes the place of another.
  lemma Replaced(m: Memory, m': Memory, nil: Node, root: Node, root': Node, top: Node, path: Path, t: Tree, t': Tree)
    requires Holds(m, nil, root, top, path, t) && InOrder(t') == InOrder(t)
    requires Elsewhere(m, m', Members(InOrder(t)) + {Parent(path, top)}) && Linked(m', nil, t', Parent(path, top))
    requires if path.Top? then root' == Root(t', nil)
             else root' == root && path.node in m && m'[path.node] == Rechild(path, m[path.node], Root(t', nil))
    ensures Holds(m', nil, root', top, path, t')
  {
    Apart(path, t);
    assert Whole(path, t') == Whole(path, t);
    Rehung(m, m', nil, root, root', top, path, Root(t, nil), Root(t', nil));
  }

  lemma Painted(m: Memory, m': Memory, nil: Node, root: Node, top: Node, path: Path, t: Tree, red: bool)
    requires Holds(m, nil, root, top, path, t) && t.Branch? && Elsewhere(m, m', {t.node})
    requires m'[t.node] == m[t.node].(red := red)
    ensures Holds(m', nil, root, top, path, t.(red := red))
  {
    hide Whole, PathLinked, Holds;
    HoldsLinks(m, nil, root, top, path, t);
    Apart(path, t);
    PaintedLinks(m, m', nil, t, Parent(path, top), red);
    assert t.node in InOrder(t);
    if !path.Top? {
      PathEnd(m, nil, root, top, path, Root(t, nil));
    }
    Replaced(m, m', nil, root, root, top, path, t, t.(red := red));
  }

  lemma HoldsLinks(m: Memory, nil: Node, root: Node, top: Node, path: Path, t: Tree)
    requires Holds(m, nil, root, top, path, t)
    ensures Linked(m, nil, t, Parent(path, top)) && PathLinked(m, nil, root, top, path, Root(t, nil))
    ensures NoDuplicates(Whole(path, t)) && m.Keys == Members(Whole(path, t)) + {nil}
    ensures nil !in Whole(path, t) && top !in Whole(path, t)
  {
  }

  lemma PathEnd(m: Memory, nil: Node, root: Node, top: Node, path: Path, child: Node)
    requires PathLinked(m, nil, root, top, path, child)
    ensures if path.Top? then root == child else path.node in m && path.node != nil && Rechild(path, m[path.node], child) == m[path.node]
  {
  }

  lemma PaintedLinks(m: Memory, m': Memory, nil: Node, t: Tree, parent: Node, red: bool)
    requires Linked(m, nil, t, parent) && t.Branch? && NoDuplicates(InOrder(t)) && Elsewhere(m, m', {t.node})
    requires m'[t.node] == m[t.node].(red := red) && forall n <- InOrder(t) :: n in m
    ensures Linked(m', nil, t.(red := red), parent)
  {
    Inside(InOrder(t.left), [t.node], InOrder(t.right));
    LinkedFrame(m, m', nil, t.left, t.node);
    LinkedFrame(m, m', nil, t.right, t.node);
  }

  // What a rotation changes in memory: `y` comes to stand above `x`, and `b` below `x`.
  ghost predicate RelinkedLeft(m: Memory, m': Memory, nil: Node, root: Node, root': Node, top: Node, path: Path, x: Node, y: Node, b: Tree) {
    && x in m && y in m && Elsewhere(m, m', {x, y, Root(b, nil), Parent(path, top)})
    && m'[x] == Cell(y, m[x].left, m[y].left, m[x].red) && m'[y] == Cell(m[x].parent, x, m[y].right, m[y].red)
    && nil in m && m'[nil] == m[nil] && (b.Branch? ==> b.node in m && m'[b.node] == m[b.node].(parent := x))
    && if path.Top? then root' == y else root' == root && path.node in m && m'[path.node] == Rechild(path, m[path.node], y)
  }

  ghost predicate RelinkedRight(m: Memory, m': Memory, nil: Node, root: Node, root': Node, top: Node, path: Path, x: Node, y: Node, b: Tree) {
    && x in m && y in m && Elsewhere(m, m', {x, y, Root(b, nil), Parent(path, top)})
    && m'[x] == Cell(y, m[y].right, m[x].right, m[x].red) && m'[y] == Cell(m[x].parent, m[y].left, x, m[y].red)
    && nil in m && m'[nil] == m[nil] && (b.Branch? ==> b.node in m && m'[b.node] == m[b.node].(parent := x))
    && if path.Top? then root' == y else root' == root && path.node in m && m'[path.node] == Rechild(path, m[path.node], y)
  }

  lemma RotationOrder(a: Tree, x: Node, xr: bool, b: Tree, y: Node, yr: bool, c: Tree)
    ensures var s := InOrder(Branch(a, x, xr, Branch(b, y, yr, c)));
      InOrder(Branch(Branch(a, x, xr, b), y, yr, c)) == s && x in s && y in s && (b.Branch? ==> b.node in s)
  {
    var i, j, k := InOrder(a), InOrder(b), InOrder(c);
    assert b.Branch? ==> b.node in j;
    assert (i + [x] + j) + [y] + k == i + [x] + (j + [y] + k);
  }

  lemma RotatedLinks(m: Memory, m': Memory, nil: Node, parent: Node, a: Tree, x: Node, xr: bool, b: Tree, y: Node, yr: bool, c: Tree)
    requires Linked(m, nil, Branch(a, x, xr, Branch(b, y, yr, c)), parent) && NoDuplicates(InOrder(Branch(a, x, xr, Branch(b, y, yr, c))))
    requires parent !in InOrder(Branch(a, x, xr, Branch(b, y, yr, c))) && nil !in InOrder(Branch(a, x, xr, Branch(b, y, yr, c)))
    requires Members(InOrder(Branch(a, x, xr, Branch(b, y, yr, c)))) <= m.Keys && x in m && y in m && Elsewhere(m, m', {x, y, Root(b, nil), parent})
    requires m'[x] == Cell(y, m[x].left, m[y].left, m[x].red) && m'[y] == Cell(parent, x, m[y].right, m[y].red)
    requires b.Branch? ==> b.node in m && m'[b.node] == m[b.node].(parent := x)
    ensures Linked(m', nil, Branch(Branch(a, x, xr, b), y, yr, c), parent)
  {
    var i, j, k := InOrder(a), InOrder(b), InOrder(c);
    Inside(i, [x], j + [y] + k);
    Inside(j, [y], k);
    assert InOrder(Branch(b, y, yr, c)) == j + [y] + k;
    LinkedFrame(m, m', nil, a, x);
    Adopted(m, m', nil, b, y, x);
    LinkedFrame(m, m', nil, c, y);
  }

  lemma RotatedLeft(m: Memory, m': Memory, nil: Node, root: Node, root': Node, top: Node, path: Path,
                    a: Tree, x: Node, xr: bool, b: Tree, y: Node, yr: bool, c: Tree)
    requires Holds(m, nil, root, top, path, Branch(a, x, xr, Branch(b, y, yr, c)))
    requires RelinkedLeft(m, m', nil, root, root', top, path, x, y, b)
    ensures Holds(m', nil, root', top, path, Branch(Branch(a, x, xr, b), y, yr, c))
  {
    hide Whole, PathLinked, Holds, NoDuplicates;
    var t := Branch(a, x, xr, Branch(b, y, yr, c));
    HoldsLinks(m, nil, root, top, path, t);
    Apart(path, t);
    RotationOrder(a, x, xr, b, y, yr, c);
    assert Members(InOrder(t)) <= m.Keys;
    RotatedLinks(m, m', nil, Parent(path, top), a, x, xr, b, y, yr, c);
    if !path.Top? {
      PathEnd(m, nil, root, top, path, x);
    }
    Replaced(m, m', nil, root, root', top, path, t, Branch(Branch(a, x, xr, b), y, yr, c));
  }

  lemma RotatedRightLinks(m: Memory, m': Memory, nil: Node, parent: Node, a: Tree, y: Node, yr: bool, b: Tree, x: Node, xr: bool, c: Tree)
    requires Linked(m, nil, Branch(Branch(a, y, yr, b), x, xr, c), parent) && NoDuplicates(InOrder(Branch(a, y, yr, Branch(b, x, xr, c))))
    requires parent !in InOrder(Branch(a, y, yr, Branch(b, x, xr, c))) && nil !in InOrder(Branch(a, y, yr, Branch(b, x, xr, c)))
    requires Members(InOrder(Branch(a, y, yr, Branch(b, x, xr, c)))) <= m.Keys && x in m && y in m && Elsewhere(m, m', {x, y, Root(b, nil), parent})
    requires m'[x] == Cell(y, m[y].right, m[x].right, m[x].red) && m'[y] == Cell(parent, m[y].left, x, m[y].red)
    requires b.Branch? ==> b.node in m && m'[b.node] == m[b.node].(parent := x)
    ensures Linked(m', nil, Branch(a, y, yr, Branch(b, x, xr, c)), parent)
  {
    var i, j, k := InOrder(a), InOrder(b), InOrder(c);
    Inside(i, [y], j + [x] + k);
    Inside(j, [x], k);
    assert InOrder(Branch(b, x, xr, c)) == j + [x] + k;
    LinkedFrame(m, m', nil, a, y);
    Adopted(m, m', nil, b, y, x);
    LinkedFrame(m, m', nil, c, x);
  }

  lemma RotatedRight(m: Memory, m': Memory, nil: Node, root: Node, root': Node, top: Node, path: Path,
                     a: Tree, y: Node, yr: bool, b: Tree, x: Node, xr: bool, c: Tree)
    requires Holds(m, nil, root, top, path, Branch(Branch(a, y, yr, b), x, xr, c))
    requires RelinkedRight(m, m', nil, root, root', top, path, x, y, b)
    ensures Holds(m', nil, root', top, path, Branch(a, y, yr, Branch(b, x, xr, c)))
  {
    hide Whole, PathLinked, Holds, NoDuplicates;
    var t := Branch(Branch(a, y, yr, b), x, xr, c);
    HoldsLinks(m, nil, root, top, path, t);
    Apart(path, t);
    RotationOrder(a, y, yr, b, x, xr, c);
    assert Members(InOrder(t)) <= m.Keys;
    RotatedRightLinks(m, m', nil, Parent(path, top), a, y, yr, b, x, xr, c);
    if !path.Top? {
      PathEnd(m, nil, root, top, path, x);
    }
    Replaced(m, m', nil, root, root', top, path, t, Branch(a, y, yr, Branch(b, x, xr, c)));
  }

  // ---- what the links at a place say ----

  lemma {:induction false} RootOnPath(m: Memory, nil: Node, root: Node, top: Node, path: Path, child: Node)
    requires PathLinked(m, nil, root, top, path, child)
    ensures if path.Top? then root == child else root in Before(path) + After(path)
    decreases path
  {
    if !path.Top? {
      RootOnPath(m, nil, root, top, path.up, path.node);
      PathEnds(path);
    }
  }

  lemma PlaceFacts(m: Memory, nil: Node, root: Node, top: Node, path: Path, t: Tree)
    requires Holds(m, nil, root, top, path, t) && t.Branch?
    ensures t.node in m && t.node != nil && t.node != top
    ensures m[t.node] == Cell(Parent(path, top), Root(t.left, nil), Root(t.right, nil), t.red)
    ensures t.node == root <==> path.Top?
    ensures !path.Top? ==>
      && path.node in m && path.node != nil && path.node != t.node && path.node != top
      && m[path.node].left == Root(if path.InLeft? then t else path.left, nil)
      && m[path.node].right == Root(if path.InLeft? then path.right else t, nil)
      && m[path.node].red == path.red
      && (m[path.node].left == t.node <==> path.InLeft?)
  {
    hide Whole, NoDuplicates;
    HoldsLinks(m, nil, root, top, path, t);
    Apart(path, t);
    RootOnPath(m, nil, root, top, path, t.node);
    PathEnds(path);
    assert t.node in InOrder(t);
    if path.InRight? && path.left.Branch? {
      assert path.left.node in InOrder(path.left) && path.left.node in Before(path);
    }
  }

  // All that a rotation reads: `x` above `y` above `b`, and the node that `x` hangs from.
  ghost predicate RotationSite(m: Memory, nil: Node, root: Node, top: Node, path: Path, x: Node, y: Node, b: Tree) {
    && x in m && y in m && x != nil && y != nil && x != y && x != top && y != top
    && m[x].parent == Parent(path, top) && m[y].parent == x && (x == root <==> path.Top?)
    && (b.Branch? ==> b.node in m && b.node != nil && b.node != x && b.node != y && b.node != Parent(path, top) && m[b.node].parent == y)
    && (!path.Top? ==> path.node in m && path.node != nil && path.node != x && path.node != y && (m[path.node].left == x <==> path.InLeft?))
    && (path.InRight? ==> m[path.node].right == x)
  }

  lemma LeftSite(m: Memory, nil: Node, root: Node, top: Node, path: Path, a: Tree, x: Node, xr: bool, b: Tree, y: Node, yr: bool, c: Tree)
    requires Holds(m, nil, root, top, path, Branch(a, x, xr, Branch(b, y, yr, c)))
    ensures RotationSite(m, nil, root, top, path, x, y, b)
    ensures x in m && y in m && m[x].left == Root(a, nil) && m[x].right == y && m[y].left == Root(b, nil) && nil in m
  {
    hide Holds, Whole, NoDuplicates;
    var t := Branch(a, x, xr, Branch(b, y, yr, c));
    HoldsLinks(m, nil, root, top, path, t);
    assert Linked(m, nil, t.right, x);
    PlaceFacts(m, nil, root, top, path, t);
    Apart(path, t);
    RotationOrder(a, x, xr, b, y, yr, c);
    PathEnds(path);
    var i, j, k := InOrder(a), InOrder(b), InOrder(c);
    Inside(i, [x], j + [y] + k);
    Inside(j, [y], k);
    assert y in j + [y] + k;
    if b.Branch? {
      assert b.node in j && Linked(m, nil, b, y);
      assert b.node != Parent(path, top);
    }
  }

  lemma RightSite(m: Memory, nil: Node, root: Node, top: Node, path: Path, a: Tree, y: Node, yr: bool, b: Tree, x: Node, xr: bool, c: Tree)
    requires Holds(m, nil, root, top, path, Branch(Branch(a, y, yr, b), x, xr, c))
    ensures RotationSite(m, nil, root, top, path, x, y, b)
    ensures x in m && y in m && m[x].right == Root(c, nil) && m[x].left == y && m[y].right == Root(b, nil) && nil in m
  {
    hide Holds, Whole, NoDuplicates;
    var t := Branch(Branch(a, y, yr, b), x, xr, c);
    HoldsLinks(m, nil, root, top, path, t);
    assert Linked(m, nil, t.left, x);
    PlaceFacts(m, nil, root, top, path, t);
    Apart(path, t);
    RotationOrder(a, y, yr, b, x, xr, c);
    PathEnds(path);
    var i, j, k := InOrder(a), InOrder(b), InOrder(c);
    assert InOrder(t) == i + [y] + (j + [x] + k);
    Inside(i, [y], j + [x] + k);
    Inside(j, [x], k);
    assert x in j + [x] + k;
    if b.Branch? {
      assert b.node in j && Linked(m, nil, b, y);
      assert b.node != Parent(path, top);
    }
  }

  // ---- a new leaf ----

  lemma Attached(m: Memory, m': Memory, nil: Node, root: Node, root': Node, top: Node, path: Path, n: Node)
    requires Holds(m, nil, root, top, path, Leaf) && n !in m && n != top
    requires m'.Keys == m.Keys + {n} && forall k <- m.Keys :: k != Parent(path, top) ==> m'[k] == m[k]
    requires m'[n] == Cell(Parent(path, top), nil, nil, true)
    requires if path.Top? then root' == n else root' == root && path.node in m && m'[path.node] == Rechild(path, m[path.node], n)
    ensures Holds(m', nil, root', top, path, Branch(Leaf, n, true, Leaf))
  {
    var t := Branch(Leaf, n, true, Leaf);
    var a, c := Before(path), After(path);
    assert InOrder(t) == [n];
    assert Whole(path, Leaf) == a + c;
    assert Whole(path, t) == a + [n] + c;
    Ordered(a, c, n);
    assert Members(a + [n] + c) == Members(a + c) + {n};
    Rehung(m, m', nil, root, root', top, path, nil, n);
  }

  lemma Ordered(a: seq<Node>, c: seq<Node>, n: Node)
    requires NoDuplicates(a + c) && n !in a + c
    ensures NoDuplicates(a + [n] + c)
  {
    var s := a + [n] + c;
    forall i, j | 0 <= i < j < |s|
      ensures s[i] != s[j]
    {
      var k, l := if i < |a| then i else i - 1, if j < |a| then j else j - 1;
      assert i != |a| ==> s[i] == (a + c)[k];
      assert j != |a| ==> s[j] == (a + c)[l];
    }
  }

  // ---- a node taken out ----

  lemma {:induction false} HoldsConcat(m: Memory, nil: Node, root: Node, top: Node, q: Path, base: Path, t: Tree)
    ensures Holds(m, nil, root, top, Concat(q, base), t) <==> Holds(m, nil, root, top, base, Plug(q, t))
    decreases q
  {
    hide Holds;
    if !q.Top? {
      HoldsAbove(m, nil, root, top, Concat(q, base), t);
      HoldsConcat(m, nil, root, top, q.up, base, Above(q, t));
    }
  }

  // Three stretches with the middle one taken out.
  lemma Shortened(a: seq<Node>, n: Node, b: seq<Node>)
    requires NoDuplicates(a + [n] + b)
    ensures NoDuplicates(a + b) && Members(a + b) == Members(a + [n] + b) - {n} && n !in a && n !in b
  {
    Inside(a, [n], b);
    Ends(a, [n], b);
  }

  function Only(l: Tree, r: Tree): Tree {
    if l.Leaf? then r else l
  }

  // Another subtree, of other nodes, takes the place of `t`.
  lemma Rehoused(m: Memory, m': Memory, nil: Node, root: Node, root': Node, top: Node, path: Path, t: Tree, t': Tree)
    requires Holds(m, nil, root, top, path, t)
    requires NoDuplicates(Whole(path, t')) && nil !in Whole(path, t') && top !in Whole(path, t') && m'.Keys == Members(Whole(path, t')) + {nil}
    requires Linked(m', nil, t', Parent(path, top))
    requires forall j <- m.Keys :: j !in InOrder(t) && j != Parent(path, top) && j != nil ==> j in m' && m'[j] == m[j]
    requires if path.Top? then root' == Root(t', nil)
             else root' == root && path.node in m && path.node in m' && m'[path.node] == Rechild(path, m[path.node], Root(t', nil))
    ensures Holds(m', nil, root', top, path, t')
  {
    hide NoDuplicates;
    HoldsLinks(m, nil, root, top, path, t);
    Apart(path, t);
    Apart(path, t');
    Rehung(m, m', nil, root, root', top, path, Root(t, nil), Root(t', nil));
  }

  // What stands around a branch.
  lemma Surroundings(m: Memory, nil: Node, root: Node, top: Node, path: Path, l: Tree, n: Node, red: bool, r: Tree)
    requires Holds(m, nil, root, top, path, Branch(l, n, red, r))
    ensures var t := Branch(l, n, red, r);
      var a, c, i, j := Before(path), After(path), InOrder(l), InOrder(r);
      && InOrder(t) == i + [n] + j && Whole(path, t) == (a + i) + [n] + (j + c) && NoDuplicates((a + i) + [n] + (j + c))
      && NoDuplicates(i) && NoDuplicates(j) && n !in i && n !in j && (forall k <- i :: k !in j)
      && (forall k <- i :: k in InOrder(t) && k in m && k != nil && k != top && k != Parent(path, top))
      && (forall k <- j :: k in InOrder(t) && k in m && k != nil && k != top && k != Parent(path, top))
      && Linked(m, nil, l, n) && Linked(m, nil, r, n) && n in m && n in InOrder(t) && n != nil && n != top && n != Parent(path, top)
      && m.Keys == Members((a + i) + [n] + (j + c)) + {nil} && nil !in (a + i) + [n] + (j + c) && top !in (a + i) + [n] + (j + c)
  {
    hide PathLinked, Whole;
    var t := Branch(l, n, red, r);
    HoldsLinks(m, nil, root, top, path, t);
    WholeDown(path, t);
    Apart(path, t);
    PathEnds(path);
    Inside(InOrder(l), [n], InOrder(r));
  }

  // A node with at most one child gives its place to that child.
  lemma Spliced(m: Memory, m': Memory, nil: Node, root: Node, top: Node, path: Path, l: Tree, n: Node, red: bool, r: Tree)
    requires Holds(m, nil, root, top, path, Branch(l, n, red, r)) && (l.Leaf? || r.Leaf?) && !path.Top?
    requires m'.Keys == m.Keys - {n} && path.node in m && path.node in m'
    requires forall k <- m'.Keys :: k != path.node && k != Root(Only(l, r), nil) && k != nil ==> m'[k] == m[k]
    requires Only(l, r).Branch? ==> Only(l, r).node in m && Only(l, r).node in m' && m'[Only(l, r).node] == m[Only(l, r).node].(parent := path.node)
    requires m'[path.node] == Rechild(path, m[path.node], Root(Only(l, r), nil))
    ensures Holds(m', nil, root, top, path, Only(l, r))
  {
    hide Holds, PathLinked, Whole, NoDuplicates;
    var t, s := Branch(l, n, red, r), Only(l, r);
    Surroundings(m, nil, root, top, path, l, n, red, r);
    Shortened(Before(path) + InOrder(l), n, InOrder(r) + After(path));
    OnlyWhole(path, l, r);
    assert forall k <- InOrder(s) :: k in InOrder(t) && k in m && k in m' && k != nil && k != path.node;
    Adopted(m, m', nil, s, n, path.node);
    assert s.Branch? ==> s.node in InOrder(s);
    Rehoused(m, m', nil, root, root, top, path, t, s);
  }

  lemma OnlyWhole(path: Path, l: Tree, r: Tree)
    requires l.Leaf? || r.Leaf?
    ensures Whole(path, Only(l, r)) == (Before(path) + InOrder(l)) + (InOrder(r) + After(path))
    ensures InOrder(Only(l, r)) == InOrder(l) + InOrder(r)
  {
  }

  // The same at the root: the child keeps its parent link, and is painted black.
  lemma SplicedRoot(m: Memory, m': Memory, nil: Node, root: Node, top: Node, l: Tree, n: Node, red: bool, r: Tree)
    requires Holds(m, nil, root, top, Top, Branch(l, n, red, r)) && (l.Leaf? || r.Leaf?)
    requires m'.Keys == m.Keys - {n}
    requires forall k <- m'.Keys :: k != Root(Only(l, r), nil) && k != nil ==> m'[k] == m[k]
    requires Only(l, r).Branch? ==> Only(l, r).node in m && Only(l, r).node in m' && m'[Only(l, r).node] == m[Only(l, r).node].(red := false)
    ensures var s := Only(l, r); Holds(m', nil, Root(s, nil), n, Top, if s.Leaf? then s else s.(red := false))
  {
    hide PathLinked, Whole, NoDuplicates, Holds, Linked;
    var s := Only(l, r);
    Surroundings(m, nil, root, top, Top, l, n, red, r);
    Shortened(Before(Top) + InOrder(l), n, InOrder(r) + After(Top));
    OnlyWhole(Top, l, r);
    var s' := if s.Leaf? then s else s.(red := false);
    PaintedChild(m, m', nil, s, n);
    SameOrder(Top, s, s');
    HoldsTop(m', nil, n, s');
  }

  lemma HoldsTop(m: Memory, nil: Node, top: Node, t: Tree)
    requires m.Keys == Members(Whole(Top, t)) + {nil} && NoDuplicates(Whole(Top, t))
    requires nil !in Whole(Top, t) && top !in Whole(Top, t) && Linked(m, nil, t, top)
    ensures Holds(m, nil, Root(t, nil), top, Top, t)
  {
  }

  lemma PaintedChild(m: Memory, m': Memory, nil: Node, s: Tree, n: Node)
    requires Linked(m, nil, s, n) && NoDuplicates(InOrder(s)) && nil !in InOrder(s)
    requires forall k <- InOrder(s) :: k in m && k in m' && (k != Root(s, nil) ==> m'[k] == m[k])
    requires s.Branch? ==> s.node in m && s.node in m' && m'[s.node] == m[s.node].(red := false)
    ensures Linked(m', nil, if s.Leaf? then s else s.(red := false), n)
    ensures s.Branch? ==> InOrder(s.(red := false)) == InOrder(s)
  {
    if s.Branch? {
      Inside(InOrder(s.left), [s.node], InOrder(s.right));
      LinkedFrame(m, m', nil, s.left, s.node);
      LinkedFrame(m, m', nil, s.right, s.node);
    }
  }

  // Another node takes over the place of `n`, with its links and colour.
  lemma Renamed(m: Memory, m': Memory, nil: Node, root: Node, root': Node, top: Node, path: Path, l: Tree, n: Node, red: bool, r: Tree, k: Node)
    requires Holds(m, nil, root, top, path, Branch(l, n, red, r)) && k !in m && k != top
    requires m'.Keys == m.Keys - {n} + {k} && m'[k] == Cell(Parent(path, top), Root(l, nil), Root(r, nil), red)
    requires forall j <- m.Keys :: j != n && j != Root(l, nil) && j != Root(r, nil) && j != Parent(path, top) && j != nil ==> m'[j] == m[j]
    requires l.Branch? ==> l.node in m && l.node in m' && m'[l.node] == m[l.node].(parent := k)
    requires r.Branch? ==> r.node in m && r.node in m' && m'[r.node] == m[r.node].(parent := k)
    requires if path.Top? then root' == k else root' == root && path.node in m && path.node in m' && m'[path.node] == Rechild(path, m[path.node], k)
    ensures Holds(m', nil, root', top, path, Branch(l, k, red, r))
  {
    hide Holds, PathLinked, Whole, NoDuplicates, Linked;
    var t, t' := Branch(l, n, red, r), Branch(l, k, red, r);
    Surroundings(m, nil, root, top, path, l, n, red, r);
    RenamedWhole(path, l, n, red, r, k);
    RenamedLinks(m, m', nil, Parent(path, top), l, n, red, r, k);
    assert l.Branch? ==> l.node in InOrder(l);
    assert r.Branch? ==> r.node in InOrder(r);
    Rehoused(m, m', nil, root, root', top, path, t, t');
  }

  lemma RenamedWhole(path: Path, l: Tree, n: Node, red: bool, r: Tree, k: Node)
    requires NoDuplicates((Before(path) + InOrder(l)) + [n] + (InOrder(r) + After(path)))
    requires k !in (Before(path) + InOrder(l)) + [n] + (InOrder(r) + After(path))
    ensures var s, s' := (Before(path) + InOrder(l)) + [n] + (InOrder(r) + After(path)), Whole(path, Branch(l, k, red, r));
      NoDuplicates(s') && Members(s') == Members(s) - {n} + {k} && forall x <- s' :: x == k || x in s
  {
    var a, c := Before(path) + InOrder(l), InOrder(r) + After(path);
    WholeDown(path, Branch(l, k, red, r));
    Shortened(a, n, c);
    Ordered(a, c, k);
    assert Members(a + [k] + c) == Members(a + c) + {k};
  }

  lemma RenamedLinks(m: Memory, m': Memory, nil: Node, parent: Node, l: Tree, n: Node, red: bool, r: Tree, k: Node)
    requires Linked(m, nil, l, n) && Linked(m, nil, r, n) && NoDuplicates(InOrder(l)) && NoDuplicates(InOrder(r))
    requires forall j <- InOrder(l) :: j in m && j in m' && (j != Root(l, nil) ==> m'[j] == m[j])
    requires forall j <- InOrder(r) :: j in m && j in m' && (j != Root(r, nil) ==> m'[j] == m[j])
    requires l.Branch? ==> l.node in m && l.node in m' && m'[l.node] == m[l.node].(parent := k)
    requires r.Branch? ==> r.node in m && r.node in m' && m'[r.node] == m[r.node].(parent := k)
    requires k in m' && k != nil && m'[k] == Cell(parent, Root(l, nil), Root(r, nil), red)
    ensures Linked(m', nil, Branch(l, k, red, r), parent)
  {
    Adopted(m, m', nil, l, n, k);
    Adopted(m, m', nil, r, n, k);
  }

  lemma SplicedWhole(m: Memory, nil: Node, root: Node, top: Node, path: Path, l: Tree, n: Node, red: bool, r: Tree)
    requires Holds(m, nil, root, top, path, Branch(l, n, red, r)) && (l.Leaf? || r.Leaf?)
    ensures Whole(path, Only(l, r)) == Without(Whole(path, Branch(l, n, red, r)), n)
  {
    hide Holds, Whole, NoDuplicates, Without;
    Surroundings(m, nil, root, top, path, l, n, red, r);
    var a, b := Before(path) + InOrder(l), InOrder(r) + After(path);
    Shortened(a, n, b);
    WithoutBetween(a, b, n);
    OnlyWhole(path, l, r);
  }

  // A child of a branch, as a node.
  lemma ChildFacts(m: Memory, nil: Node, root: Node, top: Node, path: Path, t: Tree, left: bool)
    requires Holds(m, nil, root, top, path, t) && t.Branch?
    ensures var c := Root(Child(t, left), nil);
      && c in m && c != t.node && (!path.Top? ==> c != path.node && path.node in m)
      && (Child(t, left).Branch? ==> c != nil && c != top && m[c].parent == t.node)
  {
    hide Whole, NoDuplicates, Holds;
    Surroundings(m, nil, root, top, path, t.left, t.node, t.red, t.right);
    PlaceFacts(m, nil, root, top, path, t);
    var c := Child(t, left);
    HoldsLinks(m, nil, root, top, path, t);
    assert c.Branch? ==> c.node in InOrder(c);
  }

  // `k` has taken over the links of `n`, whose children are `a` and perhaps `b`.
  ghost predicate TakenOver(m: Memory, m': Memory, nil: Node, root: Node, root': Node, top: Node, path: Path,
                            a: Node, n: Node, red: bool, b: Node, k: Node) {
    && m'.Keys == m.Keys - {n} + {k} && m'[k] == Cell(Parent(path, top), a, b, red)
    && (forall j <- m.Keys :: j != n && j != a && j != b && j != Parent(path, top) && j != nil ==> m'[j] == m[j])
    && a in m && a in m' && m'[a] == m[a].(parent := k)
    && (b != nil ==> b in m && b in m' && m'[b] == m[b].(parent := k))
    && if path.Top? then root' == k else root' == root && path.node in m && path.node in m' && m'[path.node] == Rechild(path, m[path.node], k)
  }

  // It makes no difference which parent a child that `k` adopts named before.
  lemma TakenOverPatched(m: Memory, m1: Memory, m': Memory, nil: Node, root: Node, root': Node, top: Node, path: Path,
                         a: Node, n: Node, red: bool, b: Node, k: Node, s: Node, p: Node)
    requires TakenOver(m, m', nil, root, root', top, path, a, n, red, b, k) && s in m && m1 == m[s := m[s].(parent := p)]
    requires s == b || m[s].parent == p
    requires s != a && s != n && (!path.Top? ==> path.node != s) && (s == b ==> b != nil || s == nil)
    ensures TakenOver(m1, m', nil, root, root', top, path, a, n, red, b, k)
  {
  }

  // All that taking over the place of `n` reads.
  lemma TakeOverSite(m: Memory, nil: Node, root: Node, top: Node, path: Path, l: Tree, n: Node, red: bool, r: Tree)
    requires Holds(m, nil, root, top, path, Branch(l, n, red, r)) && l.Branch?
    ensures var a, b := l.node, Root(r, nil);
      && n in m && m[n] == Cell(Parent(path, top), a, b, red) && (n == root <==> path.Top?)
      && a in m && b in m && a != nil && a != b && n != a && n != b && n != nil && (r.Branch? ==> b != nil)
      && (!path.Top? ==> path.node in m && path.node != nil && path.node != a && path.node != b && path.node != n && (m[path.node].left == n <==> path.InLeft?))
  {
    hide Whole, NoDuplicates, Holds;
    Surroundings(m, nil, root, top, path, l, n, red, r);
    PlaceFacts(m, nil, root, top, path, Branch(l, n, red, r));
    assert l.node in InOrder(l);
    assert r.Branch? ==> r.node in InOrder(r);
  }

  // The successor of a node, below its right child.
  lemma Successor(m: Memory, nil: Node, root: Node, top: Node, path: Path, l: Tree, n: Node, red: bool, r: Tree, q: Path, k: Node, kr: bool, s: Tree)
    requires Holds(m, nil, root, top, path, Branch(l, n, red, r)) && Plug(q, Branch(Leaf, k, kr, s)) == r && LeftSpine(q)
    ensures var full := Concat(q, InRight(path, l, n, red));
      && Holds(m, nil, root, top, full, Branch(Leaf, k, kr, s)) && !full.Top?
      && full.node == (if q.Top? then n else q.node)
      && k in m && k != n && m[k] == Cell(full.node, nil, Root(s, nil), kr) && k != nil && k != top
      && full.node in m && full.node != k && full.node != nil && full.node != Root(s, nil) && (m[full.node].left == k <==> full.InLeft?)
      && Root(s, nil) in m && Root(s, nil) != k && Root(s, nil) != n && (q.Top? || q.node != n)
      && (l.Branch? ==> l.node != Root(s, nil)) && (!path.Top? ==> path.node != Root(s, nil))
  {
    hide Whole, NoDuplicates, Holds;
    var base := InRight(path, l, n, red);
    var full, t := Concat(q, base), Branch(Leaf, k, kr, s);
    HoldsAbove(m, nil, root, top, base, r);
    HoldsConcat(m, nil, root, top, q, base, t);
    ConcatEnd(q, base);
    PlaceFacts(m, nil, root, top, full, t);
    ChildFacts(m, nil, root, top, full, t, false);
    Surroundings(m, nil, root, top, path, l, n, red, r);
    PlugIsWhole(q, t);
    SpineOrder(q);
    PathEnds(q);
    assert InOrder(r) == Before(q) + InOrder(t) + After(q) by { hide *; PlugIsWhole(q, t); WholeIs(q, t); }
    assert k in InOrder(t);
    assert s.Branch? ==> s.node in InOrder(s) && s.node in InOrder(t);
    PlaceFacts(m, nil, root, top, path, Branch(l, n, red, r));
    if l.Branch? {
      ChildFacts(m, nil, root, top, path, Branch(l, n, red, r), true);
      assert l.node in InOrder(l);
    }
  }

  lemma WholeIs(q: Path, t: Tree)
    ensures Whole(q, t) == Before(q) + InOrder(t) + After(q)
  {
  }

  lemma ConcatEnd(q: Path, base: Path)
    requires LeftSpine(q) && !base.Top?
    ensures var p := Concat(q, base); !p.Top? && p.node == (if q.Top? then base.node else q.node) && (p.InLeft? <==> if q.Top? then base.InLeft? else true)
  {
  }

  lemma SuccessorOut(m: Memory, nil: Node, root: Node, top: Node, path: Path, l: Tree, n: Node, red: bool, q: Path, s: Tree)
    requires Holds(m, nil, root, top, Concat(q, InRight(path, l, n, red)), s)
    ensures Holds(m, nil, root, top, path, Branch(l, n, red, Plug(q, s)))
  {
    hide Holds;
    HoldsConcat(m, nil, root, top, q, InRight(path, l, n, red), s);
    HoldsAbove(m, nil, root, top, InRight(path, l, n, red), Plug(q, s));
  }

  // With the successor taken out, and named in the place of the node.
  lemma SuccessorNamed(m: Memory, m': Memory, nil: Node, root: Node, root': Node, top: Node, path: Path,
                       l: Tree, n: Node, red: bool, q: Path, k: Node, s: Tree)
    requires Holds(m, nil, root, top, Concat(q, InRight(path, l, n, red)), s) && k !in m && k != top && l.Branch?
    requires TakenOver(m, m', nil, root, root', top, path, l.node, n, red, Root(Plug(q, s), nil), k)
    ensures Holds(m', nil, root', top, Concat(q, InRight(path, l, k, red)), s)
  {
    hide Holds;
    var r := Plug(q, s);
    HoldsConcat(m, nil, root, top, q, InRight(path, l, n, red), s);
    HoldsAbove(m, nil, root, top, InRight(path, l, n, red), r);
    TakeOverSite(m, nil, root, top, path, l, n, red, r);
    Renamed(m, m', nil, root, root', top, path, l, n, red, r, k);
    HoldsAbove(m', nil, root', top, InRight(path, l, k, red), r);
    HoldsConcat(m', nil, root', top, q, InRight(path, l, k, red), s);
  }

  // Taking out the successor and naming it in the place of `n` takes `n` out of the order.
  lemma SuccessorWhole(m: Memory, nil: Node, root: Node, top: Node, path: Path, l: Tree, n: Node, red: bool, r: Tree, q: Path, k: Node, kr: bool, s: Tree)
    requires Holds(m, nil, root, top, path, Branch(l, n, red, r)) && Plug(q, Branch(Leaf, k, kr, s)) == r && LeftSpine(q)
    ensures Whole(Concat(q, InRight(path, l, k, red)), s) == Without(Whole(path, Branch(l, n, red, r)), n)
  {
    hide Holds, NoDuplicates, Without, Whole, Before, After, InOrder, Plug;
    Surroundings(m, nil, root, top, path, l, n, red, r);
    var a, b := Before(path) + InOrder(l), InOrder(r) + After(path);
    Shortened(a, n, b);
    WithoutBetween(a, b, n);
    SpineWhole(q, k, kr, s);
    var base := InRight(path, l, k, red);
    ConcatPlug(q, base, s);
    PlugIsWhole(Concat(q, base), s);
    PlugIsWhole(base, Plug(q, s));
    BaseWhole(path, l, k, red, Plug(q, s));
    ConcatAssociative(a, [k], InOrder(Plug(q, s)) + After(path));
    ConcatAssociative([k], InOrder(Plug(q, s)), After(path));
  }

  lemma SpineWhole(q: Path, k: Node, kr: bool, s: Tree)
    requires LeftSpine(q)
    ensures InOrder(Plug(q, Branch(Leaf, k, kr, s))) == [k] + InOrder(Plug(q, s))
  {
    SpineOrder(q);
    PlugIsWhole(q, Branch(Leaf, k, kr, s));
    PlugIsWhole(q, s);
    assert InOrder(Branch(Leaf, k, kr, s)) == [k] + InOrder(s);
    assert [] + ([k] + InOrder(s)) + After(q) == [k] + ([] + InOrder(s) + After(q));
  }

  lemma BaseWhole(path: Path, l: Tree, k: Node, red: bool, r: Tree)
    ensures Whole(InRight(path, l, k, red), r) == (Before(path) + InOrder(l)) + ([k] + (InOrder(r) + After(path)))
  {
    var x, j, a := Before(path) + InOrder(l), InOrder(r), After(path);
    ConcatAssociative(x, [k], j + a);
    ConcatAssociative(x + [k], j, a);
  }
}
