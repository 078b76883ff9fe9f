// The consistent-hashing ring: servers take places given by the hashes of their replicas'
// names, and an object goes to the server at the next place on the ring.

module Conhash {
  import opened RbShape
  import opened RbTree

  // ---- the ring as a map from places to servers ----

  type Places = map<int, Server>

  function Added(m: Places, keys: seq<int>, s: Server): Places {
    if keys == [] then m
    else
      var last := keys[|keys| - 1];
      var m' := Added(m, keys[..|keys| - 1], s);
      if last in m' then m' else m'[last := s]
  }

  function Removed(m: Places, keys: seq<int>, s: Server): Places {
    if keys == [] then m
    else
      var last := keys[|keys| - 1];
      var m' := Removed(m, keys[..|keys| - 1], s);
      if last in m' && m'[last] == s then m' - {last} else m'
  }

  // The place that serves `hash`: the least one not before it, or the least of all.
  ghost predicate Serves(m: Places, hash: int, k: int) {
    && k in m
    && (k >= hash ==> forall j <- m.Keys :: j >= hash ==> k <= j)
    && (k < hash ==> forall j <- m.Keys :: j < hash && k <= j)
  }

  lemma ServesOnce(m: Places, hash: int, k: int, k': int)
    requires Serves(m, hash, k) && Serves(m, hash, k')
    ensures k == k'
  {
  }

  // Adding never moves or takes a place that is there, and gives new ones to the server only.
  lemma {:induction false} AddedMeans(m: Places, keys: seq<int>, s: Server)
    ensures forall k <- m :: k in Added(m, keys, s) && Added(m, keys, s)[k] == m[k]
    ensures forall k <- Added(m, keys, s) :: k in m || (k in keys && Added(m, keys, s)[k] == s)
    ensures forall k <- keys :: k in Added(m, keys, s)
  {
    if keys != [] {
      AddedMeans(m, keys[..|keys| - 1], s);
      assert keys == keys[..|keys| - 1] + [keys[|keys| - 1]];
    }
  }

  lemma {:induction false} RemovedMeans(m: Places, keys: seq<int>, s: Server)
    ensures forall k <- Removed(m, keys, s) :: k in m && Removed(m, keys, s)[k] == m[k] && !(k in keys && m[k] == s)
    ensures forall k <- m :: (k in keys && m[k] == s) || k in Removed(m, keys, s)
  {
    if keys != [] {
      RemovedMeans(m, keys[..|keys| - 1], s);
      assert keys == keys[..|keys| - 1] + [keys[|keys| - 1]];
    }
  }

  // Adding a server moves objects to that server only.
  lemma AddingMovesLittle(m: Places, keys: seq<int>, s: Server, hash: int, k: int, k': int)
    requires Serves(m, hash, k) && Serves(Added(m, keys, s), hash, k')
    ensures Added(m, keys, s)[k'] == m[k] || Added(m, keys, s)[k'] == s
  {
    AddedMeans(m, keys, s);
  }

  // Deleting a server moves only the objects that were on it.
  lemma DeletingMovesLittle(m: Places, keys: seq<int>, s: Server, hash: int, k: int, k': int)
    requires Serves(m, hash, k) && Serves(Removed(m, keys, s), hash, k')
    ensures m[k] != s ==> k' == k && Removed(m, keys, s)[k'] == m[k]
  {
    RemovedMeans(m, keys, s);
    if m[k] != s {
      var m' := Removed(m, keys, s);
      assert k in m' && forall j <- m'.Keys :: j in m.Keys;
      ServesOnce(m', hash, k, k');
    }
  }

  // Adding a server and deleting it again leaves the ring as it was, whatever collides.
  lemma AddThenDelete(m: Places, keys: seq<int>, s: Server)
    requires forall k <- m :: m[k] != s
    ensures Removed(Added(m, keys, s), keys, s) == m
  {
    var m' := Added(m, keys, s);
    AddedMeans(m, keys, s);
    RemovedMeans(m', keys, s);
    hide Added, Removed;
    var r := Removed(m', keys, s);
    forall k <- m
      ensures k in r && r[k] == m[k]
    {
      assert k in m' && m'[k] != s;
    }
    forall k <- r
      ensures k in m
    {
      assert k in m';
    }
  }

  // After a server is deleted nothing is served by it, if its places are those of its replicas.
  lemma DeletedIsGone(m: Places, keys: seq<int>, s: Server)
    requires forall k <- m :: m[k] == s ==> k in keys
    ensures forall k <- Removed(m, keys, s) :: Removed(m, keys, s)[k] != s
  {
    RemovedMeans(m, keys, s);
  }

  // ---- the names of the replicas ----

  function Digit(d: nat): char
    requires d < 10
  {
    "0123456789"[d]
  }

  function Decimal(n: nat): string {
    if n < 10 then [Digit(n)] else Decimal(n / 10) + [Digit(n % 10)]
  }

  // Three digits at least.
  function Padded(i: nat): string {
    var digits := Decimal(i);
    if |digits| == 1 then "00" + digits else if |digits| == 2 then "0" + digits else digits
  }

  const NAME_LENGTH := 126

  // What fits a buffer of 127 characters with its terminator.
  function ReplicaName(iden: string, i: nat): string {
    var name := iden + "-" + Padded(i);
    if |name| > NAME_LENGTH then name[..NAME_LENGTH] else name
  }

  // The names of a server's replicas that fit their buffer.
  predicate Fits(iden: string, i: nat) {
    |iden| + 1 + |Padded(i)| <= NAME_LENGTH
  }

  // The number that digits stand for.
  function NumberOf(s: string): int {
    if s == "" then 0 else 10 * NumberOf(s[..|s| - 1]) + (s[|s| - 1] as int - '0' as int)
  }

  predicate AllDigits(s: string) {
    forall c <- s :: '0' <= c <= '9'
  }

  lemma {:induction false} DecimalStandsFor(n: nat)
    ensures NumberOf(Decimal(n)) == n && AllDigits(Decimal(n)) && |Decimal(n)| >= 1
    ensures |Decimal(n)| > 1 ==> Decimal(n)[0] != '0'
    ensures Decimal(n)[0] == '0' <==> n == 0
  {
    if n >= 10 {
      DecimalStandsFor(n / 10);
      var tens := Decimal(n / 10);
      assert Decimal(n)[..|tens|] == tens;
    } else {
      assert Decimal(n)[..0] == "";
    }
  }

  lemma {:induction false} LeadingZero(s: string)
    ensures NumberOf("0" + s) == NumberOf(s)
  {
    if s == "" {
      assert ("0" + s)[..0] == "";
    } else {
      var n := |s| - 1;
      assert ("0" + s)[..n + 1] == "0" + s[..n];
      LeadingZero(s[..n]);
    }
  }

  lemma PaddedStandsFor(i: nat)
    ensures NumberOf(Padded(i)) == i && AllDigits(Padded(i)) && |Padded(i)| >= 3
  {
    DecimalStandsFor(i);
    LeadingZero(Decimal(i));
    LeadingZero("0" + Decimal(i));
    assert "0" + ("0" + Decimal(i)) == "00" + Decimal(i);
  }

  lemma DashLater(a: string, x: string, b: string, y: string)
    requires |a| < |b| && AllDigits(x)
    ensures a + "-" + x != b + "-" + y
  {
    var k := |b| - |a| - 1;
    assert (b + "-" + y)[|b|] == '-';
    assert k < |x| ==> (a + "-" + x)[|b|] == x[k] && x[k] in x;
  }

  // The digits of a name are what follows its last dash.
  lemma DashApart(a: string, x: string, b: string, y: string)
    requires a + "-" + x == b + "-" + y && AllDigits(x) && AllDigits(y)
    ensures a == b && x == y
  {
    if |a| < |b| {
      DashLater(a, x, b, y);
    }
    if |b| < |a| {
      DashLater(b, y, a, x);
    }
    var s, t := a + "-" + x, b + "-" + y;
    assert s[..|a|] == a && t[..|b|] == b && s[|a| + 1..] == x && t[|b| + 1..] == y;
  }

  // Names that fit tell servers and replicas apart.
  lemma NamesApart(iden: string, i: nat, iden': string, j: nat)
    requires Fits(iden, i) && Fits(iden', j)
    ensures ReplicaName(iden, i) == ReplicaName(iden', j) <==> iden == iden' && i == j
  {
    PaddedStandsFor(i);
    PaddedStandsFor(j);
    if ReplicaName(iden, i) == ReplicaName(iden', j) {
      DashApart(iden, Padded(i), iden', Padded(j));
    }
  }

  // All replicas of a server have one name if nothing of their numbers fits.
  lemma NamesCut(iden: string, i: nat, j: nat)
    requires |iden| >= NAME_LENGTH - 1
    ensures ReplicaName(iden, i) == ReplicaName(iden, j)
  {
    PaddedStandsFor(i);
    PaddedStandsFor(j);
    var s := iden + "-";
    assert (s + Padded(i))[..NAME_LENGTH] == s[..NAME_LENGTH] == (s + Padded(j))[..NAME_LENGTH];
  }

  function Positions(hash: string -> int, iden: string, count: nat): (r: seq<int>)
    ensures |r| == count
  {
    if count == 0 then [] else Positions(hash, iden, count - 1) + [hash(ReplicaName(iden, count - 1))]
  }

  ghost predicate Free(m: Places, keys: seq<int>) {
    (forall i | 0 <= i < |keys| :: keys[i] !in m) && forall i, j | 0 <= i < j < |keys| :: keys[i] != keys[j]
  }

  // As many places as there are hashes, if they are all different and none is taken.
  lemma {:induction false} AddedAll(m: Places, keys: seq<int>, s: Server)
    requires Free(m, keys)
    ensures |Added(m, keys, s)| == |m| + |keys|
  {
    if keys != [] {
      var n := |keys| - 1;
      var before := Added(m, keys[..n], s);
      AddedAll(m, keys[..n], s);
      AddedMeans(m, keys[..n], s);
      assert keys[n] !in keys[..n] && keys[n] !in before;
      OneMore(before, keys[n], s);
    }
  }

  lemma OneMore(m: Places, k: int, s: Server)
    requires k !in m
    ensures |m[k := s]| == |m| + 1
  {
    assert m[k := s] - {k} == m;
  }

  lemma {:induction false} PositionsAt(hash: string -> int, iden: string, count: nat, i: nat)
    requires i < count
    ensures Positions(hash, iden, count)[i] == hash(ReplicaName(iden, i))
  {
    if i < count - 1 {
      PositionsAt(hash, iden, count - 1, i);
    }
  }

  // A hash without collisions among the names of these servers' replicas.
  ghost predicate Collisionless(hash: string -> int, servers: set<Server>) {
    forall s <- servers, s' <- servers, i: nat, j: nat | i < s.replicas && j < s'.replicas ::
      hash(ReplicaName(s.iden, i)) == hash(ReplicaName(s'.iden, j)) ==> ReplicaName(s.iden, i) == ReplicaName(s'.iden, j)
  }

  // A server with an own name, and a hash that keeps apart all names, which all fit.
  ghost predicate Apart(hash: string -> int, m: Places, s: Server) {
    && Collisionless(hash, m.Values + {s}) && (forall u <- m.Values :: u.iden != s.iden)
    && forall u <- m.Values + {s}, i: nat | i < u.replicas :: Fits(u.iden, i)
  }

  // A new server with a name of its own gets a place for each of its replicas.
  lemma EveryReplicaPlaced(hash: string -> int, m: Places, s: Server)
    requires Apart(hash, m, s) && forall k <- m :: k in Positions(hash, m[k].iden, m[k].replicas)
    ensures var after := Added(m, Positions(hash, s.iden, s.replicas), s);
      && |after| == |m| + s.replicas
      && forall i: nat | i < s.replicas :: var k := hash(ReplicaName(s.iden, i)); k !in m && k in after && after[k] == s
  {
    hide ReplicaName, Fits, Added;
    var keys := Positions(hash, s.iden, s.replicas);
    forall i | 0 <= i < |keys|
      ensures keys[i] == hash(ReplicaName(s.iden, i)) && keys[i] !in m && forall j | i < j < |keys| :: keys[i] != keys[j]
    {
      PositionsAt(hash, s.iden, s.replicas, i);
      if keys[i] in m {
        var u := m[keys[i]];
        var j := PositionOf(hash, u.iden, u.replicas, keys[i]);
        NamesApart(s.iden, i, u.iden, j);
      }
      forall j | i < j < |keys|
        ensures keys[i] != keys[j]
      {
        PositionsAt(hash, s.iden, s.replicas, j);
        NamesApart(s.iden, i, s.iden, j);
      }
    }
    AddedAll(m, keys, s);
    AddedMeans(m, keys, s);
    forall i: nat | i < s.replicas
      ensures var k := hash(ReplicaName(s.iden, i)); k !in m && k in Added(m, keys, s) && Added(m, keys, s)[k] == s
    {
      assert keys[i] in keys;
    }
  }

  lemma {:induction false} PositionOf(hash: string -> int, iden: string, count: nat, k: int) returns (i: nat)
    requires k in Positions(hash, iden, count)
    ensures i < count && k == hash(ReplicaName(iden, i))
  {
    if k == hash(ReplicaName(iden, count - 1)) {
      i := count - 1;
    } else {
      i := PositionOf(hash, iden, count - 1, k);
    }
  }

  // ---- the nodes of the tree as places ----

  // The nodes are the places of `m`, each once.
  ghost predicate Shows(s: seq<Node>, m: Places) {
    && (forall x <- s, y <- s :: x.key == y.key ==> x == y)
    && (forall n <- s :: n.key in m && m[n.key] == n.owner)
    && forall k <- m :: exists n <- s :: n.key == k
  }

  lemma {:induction false} InsertedMembers(s: seq<Node>, n: Node)
    ensures forall x <- Inserted(s, n) :: x in s || x == n
    ensures forall x <- s :: x in Inserted(s, n)
    ensures n in Inserted(s, n)
  {
    if s != [] && n.key >= s[0].key {
      InsertedMembers(s[1..], n);
      assert s == [s[0]] + s[1..];
    }
  }

  lemma InsertedShows(s: seq<Node>, n: Node, m: Places)
    requires Shows(s, m) && n.key !in m
    ensures Shows(Inserted(s, n), m[n.key := n.owner])
  {
    hide Inserted;
    InsertedMembers(s, n);
    var m', t := m[n.key := n.owner], Inserted(s, n);
    assert forall x <- t :: x.key in m' && m'[x.key] == x.owner;
    forall k <- m'
      ensures exists x <- t :: x.key == k
    {
      if k in m {
        var x :| x in s && x.key == k;
        assert x in Inserted(s, n);
      } else {
        assert n in Inserted(s, n);
      }
    }
  }

  lemma WithoutMembers(s: seq<Node>, n: Node)
    requires n in s && NoDuplicates(s)
    ensures forall x <- Without(s, n) :: x in s && x != n
    ensures forall x <- s :: x == n || x in Without(s, n)
  {
    var a, b := FirstOf(s, n);
    WithoutBetween(a, b, n);
    NotAgain(a, n, b);
  }

  lemma NotAgain(a: seq<Node>, n: Node, b: seq<Node>)
    requires NoDuplicates(a + [n] + b)
    ensures n !in a && n !in b
  {
    var s := a + [n] + b;
    assert s[|a|] == n;
    assert forall i | 0 <= i < |a| :: s[i] == a[i];
    assert forall j | |a| < j < |s| :: s[j] == b[j - |a| - 1];
    forall j | 0 <= j < |b|
      ensures b[j] != n
    {
      assert s[|a| + 1 + j] == b[j];
    }
  }

  lemma WithoutShows(s: seq<Node>, n: Node, m: Places)
    requires Shows(s, m) && n in s && NoDuplicates(s)
    ensures Shows(Without(s, n), m - {n.key})
  {
    hide Without, NoDuplicates;
    WithoutMembers(s, n);
    var m', t := m - {n.key}, Without(s, n);
    assert forall x <- t :: x.key in m' && m'[x.key] == x.owner;
    forall k <- m'
      ensures exists x <- t :: x.key == k
    {
      var x :| x in s && x.key == k;
      assert x in Without(s, n);
    }
  }

  // The node found by going round is the place that serves.
  lemma ClockwiseServes(s: seq<Node>, m: Places, hash: int)
    requires Shows(s, m) && Sorted(s) && s != []
    ensures var n := Clockwise(s, hash); Serves(m, hash, n.key) && m[n.key] == n.owner
  {
    hide Clockwise, Sorted;
    ClockwiseMeans(s, hash);
  }

  lemma AddedStep(m: Places, keys: seq<int>, s: Server, h: int)
    ensures Added(m, keys + [h], s) == var m' := Added(m, keys, s); if h in m' then m' else m'[h := s]
    ensures Removed(m, keys + [h], s) == var m' := Removed(m, keys, s); if h in m' && m'[h] == s then m' - {h} else m'
  {
    assert (keys + [h])[..|keys|] == keys;
  }

  lemma {:induction false} PositionIn(hash: string -> int, iden: string, i: nat, count: nat)
    requires i < count
    ensures hash(ReplicaName(iden, i)) in Positions(hash, iden, count)
  {
    if i < count - 1 {
      PositionIn(hash, iden, i, count - 1);
    }
  }

  class Ring {
    const hash: string -> int
    const tree: RbTree
    var count: nat
    ghost var places: Places

    // The tree shows the places, and a server's places are among those of its replicas.
    ghost predicate Consistent()
      reads this, tree, tree.nodes, tree.top
    {
      && tree.Valid() && Shows(InOrder(tree.tree), places) && count == tree.size
      && forall k <- places :: k in Positions(hash, places[k].iden, places[k].replicas)
    }

    ghost predicate Valid()
      reads this, tree, tree.nodes, tree.top, places.Values
    {
      Consistent() && forall k <- places :: places[k].inside
    }

    constructor (hash: string -> int)
      ensures Valid() && this.hash == hash && places == map[] && fresh(tree) && fresh(tree.nodes)
    {
      this.hash, count, places := hash, 0, map[];
      tree := new RbTree();
    }

    // Places for every replica whose hash is not taken.
    method AddReplicas(s: Server)
      requires Consistent()
      modifies this`count, this`places, tree, tree.nodes
      ensures Consistent() && places == Added(old(places), Positions(hash, s.iden, s.replicas), s)
      ensures fresh(tree.nodes - old(tree.nodes))
    {
      hide Ring.Consistent, Added, Removed;
      AddedNone(places, s);
      var i := 0;
      while i < s.replicas
        invariant 0 <= i <= s.replicas && Consistent() && fresh(tree.nodes - old(tree.nodes))
        invariant places == Added(old(places), Positions(hash, s.iden, i), s)
      {
        AddedStep(old(places), Positions(hash, s.iden, i), s, hash(ReplicaName(s.iden, i)));
        AddReplica(s, i);
        i := i + 1;
      }
    }

    method AddReplica(s: Server, i: nat)
      requires Consistent() && i < s.replicas
      modifies this`count, this`places, tree, tree.nodes
      ensures Consistent() && fresh(tree.nodes - old(tree.nodes))
      ensures var h, m := hash(ReplicaName(s.iden, i)), old(places); places == if h in m then m else m[h := s]
    {
      hide RbTree.Valid, Shows, Inserted, ReplicaName;
      var h := hash(ReplicaName(s.iden, i));
      PositionIn(hash, s.iden, i, s.replicas);
      var found := tree.Search(h);
      FoundShows(InOrder(tree.tree), places, h, found);
      if found == null {
        var node := new Node(h, s);
        InsertedShows(InOrder(tree.tree), node, places);
        tree.Insert(node);
        count := count + 1;
        places := places[h := s];
      }
    }

    // Takes back the replicas' places, as far as they are the server's.
    method DelReplicas(s: Server)
      requires Consistent()
      modifies this`count, this`places, tree, tree.nodes
      ensures Consistent() && places == Removed(old(places), Positions(hash, s.iden, s.replicas), s)
      ensures tree.nodes <= old(tree.nodes)
    {
      hide Ring.Consistent, Added, Removed;
      RemovedNone(places, s);
      var i := 0;
      while i < s.replicas
        invariant 0 <= i <= s.replicas && Consistent() && tree.nodes <= old(tree.nodes)
        invariant places == Removed(old(places), Positions(hash, s.iden, i), s)
      {
        AddedStep(old(places), Positions(hash, s.iden, i), s, hash(ReplicaName(s.iden, i)));
        DelReplica(s, i);
        i := i + 1;
      }
    }

    method DelReplica(s: Server, i: nat)
      requires Consistent()
      modifies this`count, this`places, tree, tree.nodes
      ensures Consistent() && tree.nodes <= old(tree.nodes)
      ensures var h, m := hash(ReplicaName(s.iden, i)), old(places); places == if h in m && m[h] == s then m - {h} else m
    {
      hide RbTree.Valid, Shows, Without, ReplicaName;
      var h := hash(ReplicaName(s.iden, i));
      var found := tree.Search(h);
      FoundShows(InOrder(tree.tree), places, h, found);
      if found != null {
        if found.owner == s {
          tree.NodesOnce();
          WithoutShows(InOrder(tree.tree), found, places);
          count := count - 1;
          tree.Delete(found);
          places := places - {h};
        }
      }
    }

    // Fails, with -1, for a server that is not set up or already inside.
    method AddServer(s: Server) returns (code: int)
      requires Valid()
      modifies this`count, this`places, s`inside, tree, tree.nodes
      ensures Valid() && fresh(tree.nodes - old(tree.nodes))
      ensures code == if old(s.ready && !s.inside) then 0 else -1
      ensures places == if code == 0 then Added(old(places), Positions(hash, s.iden, s.replicas), s) else old(places)
      ensures code == 0 ==> s.inside && forall k <- old(places) :: old(places)[k] != s
      ensures count == |places| && (code == 0 && Apart(hash, old(places), s) ==> count == old(count) + s.replicas)
    {
      hide Ring.Consistent, Added, Apart;
      CountIsPlaces();
      if !s.ready || s.inside {
        return -1;
      }
      s.inside := true;
      PlacesOfReplicas();
      AddedMeans(places, Positions(hash, s.iden, s.replicas), s);
      if Apart(hash, places, s) {
        EveryReplicaPlaced(hash, places, s);
      }
      AddReplicas(s);
      CountIsPlaces();
      code := 0;
    }

    // Fails, with -1, for a server that is not set up or not inside.
    method DelServer(s: Server) returns (code: int)
      requires Valid()
      modifies this`count, this`places, s`inside, tree, tree.nodes
      ensures Valid() && tree.nodes <= old(tree.nodes)
      ensures code == if old(s.ready && s.inside) then 0 else -1
      ensures places == if code == 0 then Removed(old(places), Positions(hash, s.iden, s.replicas), s) else old(places)
      ensures code == 0 ==> !s.inside && forall k <- places :: places[k] != s
      ensures count == |places|
    {
      hide Ring.Consistent, Removed;
      CountIsPlaces();
      if !s.ready || !s.inside {
        return -1;
      }
      s.inside := false;
      PlacesOfReplicas();
      RemovedMeans(places, Positions(hash, s.iden, s.replicas), s);
      DeletedIsGone(places, Positions(hash, s.iden, s.replicas), s);
      DelReplicas(s);
      CountIsPlaces();
      code := 0;
    }

    lemma CountIsPlaces()
      requires Consistent()
      ensures count == |places|
    {
      hide Shows;
      tree.NodesOnce();
      ShowsCount(InOrder(tree.tree), places);
    }

    lemma PlacesOfReplicas()
      requires Consistent()
      ensures forall k <- places :: k in Positions(hash, places[k].iden, places[k].replicas)
    {
    }

    // The server that an object goes to.
    method Lookup(name: string) returns (s: Server?)
      requires Valid()
      ensures s == null <==> places == map[]
      ensures s != null ==> exists k :: Serves(places, hash(name), k) && s == places[k]
    {
      hide RbTree.Valid, Shows, Clockwise, Serves;
      tree.NodesOnce();
      EmptyShows(tree.tree, places);
      if count == 0 {
        return null;
      }
      var h := hash(name);
      var node := tree.Lookup(h);
      tree.KeysSorted();
      ClockwiseServes(InOrder(tree.tree), places, h);
      s := node.owner;
    }
  }

  lemma EmptyShows(t: Tree, m: Places)
    requires Shows(InOrder(t), m)
    ensures |InOrder(t)| == 0 <==> m == map[]
    ensures t.Leaf? <==> InOrder(t) == []
  {
    if t.Branch? {
      assert t.node in InOrder(t);
      assert t.node.key in m;
    }
    var s := InOrder(t);
    forall k <- m.Keys
      ensures s != []
    {
      KeyShown(s, m, k);
    }
    assert s == [] ==> m.Keys == {};
  }

  lemma KeyShown(s: seq<Node>, m: Places, k: int)
    requires Shows(s, m) && k in m
    ensures s != []
  {
    var n :| n in s && n.key == k;
  }

  lemma NoneShown(s: seq<Node>, m: Places)
    requires Shows(s, m)
    ensures s == [] ==> m == map[]
  {
    forall k <- m.Keys
      ensures s != []
    {
      KeyShown(s, m, k);
    }
    assert s == [] ==> m.Keys == {};
  }

  // As many nodes as places.
  lemma {:induction false} ShowsCount(s: seq<Node>, m: Places)
    requires Shows(s, m) && NoDuplicates(s)
    ensures |s| == |m|
  {
    NoneShown(s, m);
    if s != [] {
      var n := s[0];
      WithoutShows(s, n, m);
      ShowsCount(s[1..], m - {n.key});
      OneMore(m - {n.key}, n.key, n.owner);
      assert (m - {n.key})[n.key := n.owner] == m;
    }
  }

  lemma AddedNone(m: Places, s: Server)
    ensures Added(m, [], s) == m
  {
  }

  lemma RemovedNone(m: Places, s: Server)
    ensures Removed(m, [], s) == m
  {
  }

  // Searching the tree is looking the key up in the map.
  lemma FoundShows(s: seq<Node>, m: Places, h: int, found: Node?)
    requires Shows(s, m)
    requires found == null ==> forall n <- s :: n.key != h
    requires found != null ==> found in s && found.key == h
    ensures h in m <==> found != null
    ensures found != null ==> m[h] == found.owner
  {
  }
}
