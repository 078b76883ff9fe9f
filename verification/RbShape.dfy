// Red-black trees as values: shapes over nodes, the path from a place in a tree up to its
// root, and what re-balancing does to heights and colours.

module RbShape {
  // A server: its name, how many places it takes on the ring, and its two flags.
  class Server {
    const iden: string
    const replicas: nat
    var ready: bool
    var inside: bool

    constructor (iden: string, replicas: nat)
      ensures this.iden == iden && this.replicas == replicas && ready && !inside
    {
      this.iden, this.replicas, ready, inside := iden, replicas, true, false;
    }
  }

  // A node of the tree; key and owner are set once, when it is made.
  class Node {
    const key: int
    const owner: Server
    var parent: Node?
    var left: Node?
    var right: Node?
    var red: bool

    constructor (key: int, owner: Server)
      ensures this.key == key && this.owner == owner
    {
      this.key, this.owner := key, owner;
    }
  }

  datatype Tree = Leaf | Branch(left: Tree, node: Node, red: bool, right: Tree)

  // Where a subtree hangs: below nothing, or left or right of a node.
  datatype Path =
    | Top
    | InLeft(up: Path, node: Node, red: bool, right: Tree)
    | InRight(up: Path, left: Tree, node: Node, red: bool)

  function Plug(path: Path, t: Tree): Tree {
    match path
    case Top => t
    case InLeft(up, n, red, r) => Plug(up, Branch(t, n, red, r))
    case InRight(up, l, n, red) => Plug(up, Branch(l, n, red, t))
  }

  function Length(path: Path): nat {
    if path.Top? then 0 else 1 + Length(path.up)
  }

  // ---- order ----

  function InOrder(t: Tree): seq<Node> {
    if t.Leaf? then [] else InOrder(t.left) + [t.node] + InOrder(t.right)
  }

  function Before(path: Path): seq<Node> {
    match path
    case Top => []
    case InLeft(up, n, red, r) => Before(up)
    case InRight(up, l, n, red) => Before(up) + InOrder(l) + [n]
  }

  function After(path: Path): seq<Node> {
    match path
    case Top => []
    case InLeft(up, n, red, r) => [n] + InOrder(r) + After(up)
    case InRight(up, l, n, red) => After(up)
  }

  // Every node of the tree that has `t` at the end of `path`, in order.
  function Whole(path: Path, t: Tree): seq<Node> {
    Before(path) + InOrder(t) + After(path)
  }

  ghost predicate NoDuplicates(s: seq<Node>) {
    forall i, j | 0 <= i < j < |s| :: s[i] != s[j]
  }

  ghost predicate Sorted(s: seq<Node>) {
    forall i, j | 0 <= i < j < |s| :: s[i].key <= s[j].key
  }

  // The subtree above, seen from below.
  function Above(path: Path, t: Tree): Tree
    requires !path.Top?
  {
    if path.InLeft? then Branch(t, path.node, path.red, path.right) else Branch(path.left, path.node, path.red, t)
  }

  lemma WholeAbove(path: Path, t: Tree)
    requires !path.Top?
    ensures Whole(path.up, Above(path, t)) == Whole(path, t)
  {
  }

  lemma {:induction false} PlugIsWhole(path: Path, t: Tree)
    ensures InOrder(Plug(path, t)) == Whole(path, t)
    decreases path
  {
    if !path.Top? {
      WholeAbove(path, t);
      PlugIsWhole(path.up, Above(path, t));
    }
  }

  // ---- colours and heights ----

  predicate IsRed(t: Tree) {
    t.Branch? && t.red
  }

  predicate RedEnd(path: Path) {
    !path.Top? && path.red
  }

  // All ways down pass `h` black nodes.
  predicate Balanced(t: Tree, h: nat) {
    match t
    case Leaf => h == 0
    case Branch(l, n, red, r) =>
      if red then Balanced(l, h) && Balanced(r, h) else h > 0 && Balanced(l, h - 1) && Balanced(r, h - 1)
  }

  // No red node has a red child.
  predicate Proper(t: Tree) {
    t.Branch? ==> Proper(t.left) && Proper(t.right) && (t.red ==> !IsRed(t.left) && !IsRed(t.right))
  }

  function Sibling(path: Path): Tree
    requires !path.Top?
  {
    if path.InLeft? then path.right else path.left
  }

  // The rest of the tree is balanced if the subtree at the end has height `h`.
  predicate PathBalanced(path: Path, h: nat) {
    path.Top? || (Balanced(Sibling(path), h) && PathBalanced(path.up, if path.red then h else h + 1))
  }

  predicate PathProper(path: Path) {
    path.Top? || (Proper(Sibling(path)) && (path.red ==> !IsRed(Sibling(path)) && !RedEnd(path.up)) && PathProper(path.up))
  }

  // The root is black, unless the path is empty.
  predicate BlackRoot(path: Path) {
    !path.Top? ==> (if path.up.Top? then !path.red else BlackRoot(path.up))
  }

  ghost predicate RedBlack(t: Tree) {
    Proper(t) && !IsRed(t) && exists h: nat :: Balanced(t, h)
  }

  lemma {:induction false} PlugBalanced(path: Path, t: Tree, h: nat) returns (k: nat)
    requires Balanced(t, h) && PathBalanced(path, h)
    ensures Balanced(Plug(path, t), k)
    decreases path
  {
    if path.Top? {
      k := h;
    } else {
      k := PlugBalanced(path.up, Above(path, t), if path.red then h else h + 1);
    }
  }

  lemma {:induction false} PlugProper(path: Path, t: Tree)
    requires Proper(t) && PathProper(path) && !(IsRed(t) && RedEnd(path))
    ensures Proper(Plug(path, t))
    decreases path
  {
    if !path.Top? {
      PlugProper(path.up, Above(path, t));
    }
  }

  lemma {:induction false} PlugBlack(path: Path, t: Tree)
    requires BlackRoot(path)
    ensures !path.Top? ==> !IsRed(Plug(path, t))
    decreases path
  {
    if !path.Top? {
      PlugBlack(path.up, Above(path, t));
    }
  }

  // A balanced tree seen from any place in it.
  lemma {:induction false} PathOf(path: Path, t: Tree, k: nat) returns (h: nat)
    requires Balanced(Plug(path, t), k) && Proper(Plug(path, t)) && !IsRed(Plug(path, t))
    ensures Balanced(t, h) && Proper(t) && PathBalanced(path, h) && PathProper(path) && BlackRoot(path)
    ensures !(IsRed(t) && RedEnd(path)) && (path.Top? ==> !IsRed(t))
    decreases path
  {
    if path.Top? {
      h := k;
    } else {
      var g := PathOf(path.up, Above(path, t), k);
      h := if path.red then g else g - 1;
    }
  }

  // The place next to the end of a path.
  function Across(path: Path, t: Tree): Path
    requires !path.Top?
  {
    if path.InLeft? then InRight(path.up, t, path.node, path.red) else InLeft(path.up, path.node, path.red, t)
  }

  // ---- insertion ----

  // A red subtree hangs somewhere; nothing is wrong except that what it hangs from may be red.
  ghost predicate Inserting(path: Path, t: Tree, h: nat) {
    t.Branch? && t.red && Balanced(t, h) && Proper(t) && PathBalanced(path, h) && PathProper(path) && BlackRoot(path)
  }

  // A red end of a path hangs from a black node; what is around the two.
  lemma Grandparent(path: Path, t: Tree, h: nat)
    requires Inserting(path, t, h) && RedEnd(path)
    ensures Balanced(Sibling(path), h) && Proper(Sibling(path)) && !IsRed(Sibling(path))
    ensures !path.up.Top? && !path.up.red && Balanced(Sibling(path.up), h) && Proper(Sibling(path.up))
    ensures PathBalanced(path.up, h) && PathProper(path.up) && BlackRoot(path.up)
    ensures PathBalanced(path.up.up, h + 1) && PathProper(path.up.up) && BlackRoot(path.up.up)
  {
    assert PathBalanced(path.up, h) && PathProper(path.up) && !RedEnd(path.up);
  }

  function Black(t: Tree): Tree
    requires t.Branch?
  {
    t.(red := false)
  }

  // A red uncle: the grandparent becomes the red subtree.
  function Recoloured(path: Path, t: Tree): Tree
    requires !path.Top? && !path.up.Top? && Sibling(path.up).Branch?
  {
    var p, u := Black(Above(path, t)), Black(Sibling(path.up));
    if path.up.InLeft? then Branch(p, path.up.node, true, u) else Branch(u, path.up.node, true, p)
  }

  lemma RecolouredInserting(path: Path, t: Tree, h: nat)
    requires Inserting(path, t, h) && RedEnd(path) && IsRed(Sibling(path.up))
    ensures Inserting(path.up.up, Recoloured(path, t), h + 1) && Recoloured(path, t).node == path.up.node
  {
    Grandparent(path, t, h);
    assert Balanced(Black(Above(path, t)), h + 1) && Balanced(Black(Sibling(path.up)), h + 1);
  }

  // A black uncle, the red subtree on the outside: after a rotation it hangs from black.
  lemma RotatedInserting(path: Path, t: Tree, h: nat)
    requires Inserting(path, t, h) && RedEnd(path) && !IsRed(Sibling(path.up))
    ensures (path.InLeft? <==> path.up.InLeft?) ==> Inserting(RotatedOut(path), t, h) && !RedEnd(RotatedOut(path))
  {
    Grandparent(path, t, h);
    if path.InLeft? && path.up.InLeft? {
      assert Balanced(Branch(path.right, path.up.node, true, path.up.right), h);
    } else if path.InRight? && path.up.InRight? {
      assert Balanced(Branch(path.up.left, path.up.node, true, path.left), h);
    }
  }

  // The red subtree on the inside: a first rotation brings it outside.
  lemma TurnedInserting(path: Path, t: Tree, h: nat)
    requires Inserting(path, t, h) && RedEnd(path)
    ensures Inserting(TurnedPath(path, t), TurnedTree(path, t), h) && RedEnd(TurnedPath(path, t))
    ensures TurnedPath(path, t).up == path.up && (TurnedPath(path, t).InLeft? <==> path.InRight?) && TurnedTree(path, t).node == path.node
  {
    Grandparent(path, t, h);
  }

  // The steps of insertion keep the order of the nodes.
  lemma RecolouredWhole(path: Path, t: Tree)
    requires !path.Top? && !path.up.Top? && Sibling(path.up).Branch?
    ensures Whole(path.up.up, Recoloured(path, t)) == Whole(path, t)
  {
    hide Whole;
    WholeAbove(path, t);
    WholeAbove(path.up, Above(path, t));
    SameOrder(path.up.up, Above(path.up, Above(path, t)), Recoloured(path, t));
  }

  // What a single rotation at the grandparent, or at the parent, does to the place.
  function RotatedOut(path: Path): Path
    requires !path.Top? && !path.up.Top? && (path.InLeft? <==> path.up.InLeft?)
  {
    if path.InLeft? then InLeft(path.up.up, path.node, false, Branch(path.right, path.up.node, true, path.up.right))
    else InRight(path.up.up, Branch(path.up.left, path.up.node, true, path.left), path.node, false)
  }

  function TurnedPath(path: Path, t: Tree): Path
    requires !path.Top? && t.Branch?
  {
    if path.InRight? then InLeft(path.up, t.node, t.red, t.right) else InRight(path.up, t.left, t.node, t.red)
  }

  function TurnedTree(path: Path, t: Tree): Tree
    requires !path.Top? && t.Branch?
  {
    if path.InRight? then Branch(path.left, path.node, path.red, t.left) else Branch(t.right, path.node, path.red, path.right)
  }

  lemma RotatedOutWhole(path: Path, t: Tree)
    requires !path.Top? && !path.up.Top? && (path.InLeft? <==> path.up.InLeft?)
    ensures Whole(RotatedOut(path), t) == Whole(path, t)
  {
    hide Whole;
    WholeAbove(path, t);
    WholeAbove(path.up, Above(path, t));
    WholeAbove(RotatedOut(path), t);
    var o := InOrder(t);
    if path.InLeft? {
      var a, b := InOrder(path.right), InOrder(path.up.right);
      assert (o + [path.node] + a) + [path.up.node] + b == o + [path.node] + (a + [path.up.node] + b);
    } else {
      var a, b := InOrder(path.up.left), InOrder(path.left);
      assert a + [path.up.node] + (b + [path.node] + o) == (a + [path.up.node] + b) + [path.node] + o;
    }
    SameOrder(path.up.up, Above(path.up, Above(path, t)), Above(RotatedOut(path), t));
  }

  lemma TurnedWhole(path: Path, t: Tree)
    requires !path.Top? && t.Branch?
    ensures Whole(TurnedPath(path, t), TurnedTree(path, t)) == Whole(path, t)
  {
    hide Whole;
    WholeAbove(path, t);
    WholeAbove(TurnedPath(path, t), TurnedTree(path, t));
    if path.InRight? {
      var a, b, c := InOrder(path.left), InOrder(t.left), InOrder(t.right);
      assert a + [path.node] + (b + [t.node] + c) == (a + [path.node] + b) + [t.node] + c;
    } else {
      var a, b, c := InOrder(t.left), InOrder(t.right), InOrder(path.right);
      assert (a + [t.node] + b) + [path.node] + c == a + [t.node] + (b + [path.node] + c);
    }
    SameOrder(path.up, Above(path, t), Above(TurnedPath(path, t), TurnedTree(path, t)));
  }

  lemma SameOrder(path: Path, t: Tree, t': Tree)
    requires InOrder(t) == InOrder(t')
    ensures Whole(path, t) == Whole(path, t')
  {
  }

  // With the root painted black the tree is a red-black tree again.
  lemma InsertingEnds(path: Path, t: Tree, h: nat)
    requires Inserting(path, t, h) && !RedEnd(path)
    ensures Plug(path, t).Branch? && RedBlack(Black(Plug(path, t)))
  {
    PlugBranch(path, t);
    if path.Top? {
      assert Balanced(Black(t), h + 1);
    } else {
      var k := PlugBalanced(path, t, h);
      PlugProper(path, t);
      PlugBlack(path, t);
      assert Black(Plug(path, t)) == Plug(path, t);
    }
  }

  lemma {:induction false} PlugBranch(path: Path, t: Tree)
    requires t.Branch?
    ensures Plug(path, t).Branch?
    decreases path
  {
    if !path.Top? {
      PlugBranch(path.up, Above(path, t));
    }
  }

  // Where a node belongs: behind every key that is not larger.
  function Inserted(s: seq<Node>, n: Node): seq<Node> {
    if s == [] || n.key < s[0].key then [n] + s else [s[0]] + Inserted(s[1..], n)
  }

  lemma {:induction false} InsertedBetween(a: seq<Node>, b: seq<Node>, n: Node)
    requires (forall k <- a :: k.key <= n.key) && (forall k <- b :: n.key < k.key)
    ensures Inserted(a + b, n) == a + [n] + b
  {
    if a == [] {
      assert a + b == b;
      assert b != [] ==> b[0] in b;
    } else {
      assert a[0] in a;
      assert (a + b)[1..] == a[1..] + b;
      InsertedBetween(a[1..], b, n);
      assert [a[0]] + (a[1..] + [n] + b) == a + [n] + b;
    }
  }

  lemma SortedBetween(a: seq<Node>, b: seq<Node>, n: Node)
    requires Sorted(a + b) && (forall k <- a :: k.key <= n.key) && (forall k <- b :: n.key <= k.key)
    ensures Sorted(a + [n] + b)
  {
    var s := a + [n] + b;
    forall i, j | 0 <= i < j < |s|
      ensures s[i].key <= s[j].key
    {
      var k, l := if i < |a| then i else i - 1, if j < |a| then j else j - 1;
      assert i != |a| ==> s[i] == (a + b)[k];
      assert j != |a| ==> s[j] == (a + b)[l];
      if i == |a| {
        assert s[j] == b[j - |a| - 1];
      } else if j == |a| {
        assert s[i] == a[i];
      }
    }
  }

  // Around a node of a sorted sequence.
  lemma SortedAround(a: seq<Node>, x: Node, b: seq<Node>)
    requires Sorted(a + [x] + b)
    ensures (forall k <- a :: k.key <= x.key) && (forall k <- b :: x.key <= k.key) && Sorted(a) && Sorted(b) && Sorted(a + b)
  {
    var s := a + [x] + b;
    assert s[|a|] == x;
    assert forall i | 0 <= i < |a| :: s[i] == a[i];
    assert forall j | |a| < j < |s| :: s[j] == b[j - |a| - 1];
    forall j | 0 <= j < |b|
      ensures x.key <= b[j].key
    {
      assert s[|a| + 1 + j] == b[j];
    }
    forall i, j | 0 <= i < j < |a + b|
      ensures (a + b)[i].key <= (a + b)[j].key
    {
      var k, l := if i < |a| then i else i + 1, if j < |a| then j else j + 1;
      assert s[k] == (a + b)[i] && s[l] == (a + b)[j];
    }
    forall i, j | 0 <= i < j < |b|
      ensures b[i].key <= b[j].key
    {
      assert s[|a| + 1 + i] == b[i] && s[|a| + 1 + j] == b[j];
    }
  }

  // ---- descending ----

  function Down(path: Path, t: Tree, left: bool): Path
    requires t.Branch?
  {
    if left then InLeft(path, t.node, t.red, t.right) else InRight(path, t.left, t.node, t.red)
  }

  function Child(t: Tree, left: bool): Tree
    requires t.Branch?
  {
    if left then t.left else t.right
  }

  // The keys before a place are below a bound, those after it above.
  ghost predicate Straddles(path: Path, key: int) {
    (forall k <- Before(path) :: k.key <= key) && (forall k <- After(path) :: key < k.key)
  }

  lemma WholeDown(path: Path, t: Tree)
    requires t.Branch?
    ensures Whole(path, t) == (Before(path) + InOrder(t.left)) + [t.node] + (InOrder(t.right) + After(path))
  {
    var a, b, c, d := Before(path), InOrder(t.left), InOrder(t.right), After(path);
    assert a + (b + [t.node] + c) + d == (a + b) + [t.node] + (c + d);
  }

  lemma StraddlesDown(path: Path, t: Tree, key: int)
    requires t.Branch? && Sorted(Whole(path, t)) && Straddles(path, key)
    ensures Straddles(Down(path, t, key < t.node.key), key)
  {
    WholeDown(path, t);
    var a, b := Before(path) + InOrder(t.left), InOrder(t.right) + After(path);
    SortedAround(a, t.node, b);
    if key < t.node.key {
      assert After(Down(path, t, true)) == [t.node] + b;
    } else {
      assert Before(Down(path, t, false)) == a + [t.node];
    }
  }

  // ---- taking a node out ----

  function Without(s: seq<Node>, n: Node): seq<Node> {
    if s == [] then [] else if s[0] == n then s[1..] else [s[0]] + Without(s[1..], n)
  }

  lemma {:induction false} WithoutBetween(a: seq<Node>, b: seq<Node>, n: Node)
    requires n !in a
    ensures Without(a + [n] + b, n) == a + b
  {
    if a == [] {
      assert [] + [n] + b == [n] + b;
    } else {
      assert (a + [n] + b)[1..] == a[1..] + [n] + b;
      WithoutBetween(a[1..], b, n);
    }
  }

  // Where a node is in a tree.
  lemma {:induction false} Located(path: Path, t: Tree, n: Node) returns (path': Path, t': Tree)
    requires n in InOrder(t)
    ensures Plug(path', t') == Plug(path, t) && t'.Branch? && t'.node == n
    decreases t
  {
    if t.node == n {
      path', t' := path, t;
    } else {
      var left := n in InOrder(t.left);
      path', t' := Located(Down(path, t, left), Child(t, left), n);
    }
  }

  // One path below another.
  function Concat(q: Path, base: Path): Path {
    match q
    case Top => base
    case InLeft(up, n, red, r) => InLeft(Concat(up, base), n, red, r)
    case InRight(up, l, n, red) => InRight(Concat(up, base), l, n, red)
  }

  predicate LeftSpine(q: Path) {
    q.Top? || (q.InLeft? && LeftSpine(q.up))
  }

  lemma {:induction false} ConcatPlug(q: Path, base: Path, t: Tree)
    ensures Plug(Concat(q, base), t) == Plug(base, Plug(q, t))
    decreases q
  {
    if !q.Top? {
      ConcatPlug(q.up, base, Above(q, t));
    }
  }

  lemma {:induction false} SpineOrder(q: Path)
    requires LeftSpine(q)
    ensures Before(q) == []
    decreases q
  {
    if !q.Top? {
      SpineOrder(q.up);
    }
  }

  lemma WithoutOne(s: seq<Node>, n: Node)
    requires n in s && Sorted(s)
    ensures Sorted(Without(s, n)) && |Without(s, n)| == |s| - 1
  {
    var a, b := FirstOf(s, n);
    SortedAround(a, n, b);
    WithoutBetween(a, b, n);
  }

  lemma {:induction false} FirstOf(s: seq<Node>, n: Node) returns (a: seq<Node>, b: seq<Node>)
    requires n in s
    ensures s == a + [n] + b && n !in a
  {
    if s[0] == n {
      a, b := [], s[1..];
    } else {
      a, b := FirstOf(s[1..], n);
      a := [s[0]] + a;
    }
  }

  // ---- looking a key up on the ring ----

  // How many keys come before `key`.
  function Rank(s: seq<Node>, key: int): (i: nat)
    ensures i <= |s|
  {
    if s == [] || key <= s[0].key then 0 else 1 + Rank(s[1..], key)
  }

  // The first node at or after `key`, going round.
  function Clockwise(s: seq<Node>, key: int): Node
    requires s != []
  {
    if Rank(s, key) < |s| then s[Rank(s, key)] else s[0]
  }

  lemma {:induction false} RankBetween(a: seq<Node>, b: seq<Node>, key: int)
    requires (forall k <- a :: k.key < key) && (forall k <- b :: key <= k.key)
    ensures Rank(a + b, key) == |a|
  {
    if a == [] {
      assert a + b == b;
      assert b != [] ==> b[0] in b;
    } else {
      assert a[0] in a;
      assert (a + b)[1..] == a[1..] + b;
      RankBetween(a[1..], b, key);
    }
  }

  // What the choice means: the least key that is not smaller, or else the least of all.
  lemma ClockwiseMeans(s: seq<Node>, key: int)
    requires s != [] && Sorted(s)
    ensures var n := Clockwise(s, key);
      && n in s
      && (n.key >= key ==> forall k <- s :: k.key >= key ==> n.key <= k.key)
      && (n.key < key ==> forall k <- s :: k.key < key && n.key <= k.key)
  {
    RankSplits(s, key);
    var i := Rank(s, key);
    assert s[0] in s;
    if i < |s| {
      assert s[i] in s[i..];
    }
  }

  lemma {:induction false} RankSplits(s: seq<Node>, key: int)
    requires Sorted(s)
    ensures (forall k <- s[..Rank(s, key)] :: k.key < key) && (forall k <- s[Rank(s, key)..] :: key <= k.key)
  {
    if s != [] && key > s[0].key {
      RankSplits(s[1..], key);
      var i := Rank(s[1..], key);
      assert s[..i + 1] == [s[0]] + s[1..][..i] && s[i + 1..] == s[1..][i..];
    } else if s != [] {
      assert s[..0] == [];
    }
  }
}
