// Who watches whom in a space: objects that move, and the pairs of them that are close enough
// to be looked at again.

module AoiSpace {
  import opened Words
  import M = AoiMap

  datatype Point = Point(x: int, y: int, z: int)

  function Dist2(a: Point, b: Point): nat {
    var dx, dy, dz := a.x - b.x, a.y - b.y, a.z - b.z;
    Square(dx);
    Square(dy);
    Square(dz);
    dx * dx + dy * dy + dz * dz
  }

  lemma Square(d: int)
    ensures d * d >= 0
  {
  }

  // An object counts the references to it: one of its own while it is not dropped, and one
  // for each end of a pair that it is.
  datatype Object = Object(ref: int, version: int, watcher: bool, marker: bool, move: bool, drop: bool, last: Point, position: Point)

  datatype Pair = Pair(watcher: U32, marker: U32, watcherVersion: int, markerVersion: int)

  type Objects = map<U32, Object>

  function Ends(p: Pair, id: U32): nat {
    (if p.watcher == id then 1 else 0) + if p.marker == id then 1 else 0
  }

  function References(hot: seq<Pair>, id: U32): nat {
    if hot == [] then 0 else Ends(hot[0], id) + References(hot[1..], id)
  }

  lemma {:induction false} ReferencesConcat(a: seq<Pair>, b: seq<Pair>, id: U32)
    ensures References(a + b, id) == References(a, id) + References(b, id)
  {
    if a == [] {
      assert a + b == b;
    } else {
      assert (a + b)[1..] == a[1..] + b;
      ReferencesConcat(a[1..], b, id);
    }
  }

  // ---- what every step keeps ----

  // The count of an object is that of its references, and an object without any is gone.
  ghost predicate Counted(objects: Objects, hot: seq<Pair>) {
    forall id <- objects :: Right(objects[id], References(hot, id))
  }

  predicate Right(o: Object, references: nat) {
    o.ref == references + (if o.drop then 0 else 1) > 0
  }

  // Both ends of a pair are there, and one whose version is still that of the pair has not
  // moved since.
  ghost predicate Linked(objects: Objects, p: Pair) {
    && p.watcher != p.marker && p.watcher in objects && p.marker in objects
    && (objects[p.watcher].version == p.watcherVersion ==> !objects[p.watcher].move)
    && (objects[p.marker].version == p.markerVersion ==> !objects[p.marker].move)
    && p.watcherVersion <= objects[p.watcher].version && p.markerVersion <= objects[p.marker].version
  }

  ghost predicate AllLinked(objects: Objects, hot: seq<Pair>) {
    forall p <- hot :: Linked(objects, p)
  }

  // No two pairs have the same watcher and the same marker.
  ghost predicate Unique(hot: seq<Pair>) {
    forall i, j | 0 <= i < j < |hot| :: hot[i].watcher != hot[j].watcher || hot[i].marker != hot[j].marker
  }

  ghost predicate Sound(objects: Objects, hot: seq<Pair>) {
    Counted(objects, hot) && AllLinked(objects, hot) && Unique(hot)
  }

  function NewObject(p: Point): Object {
    Object(1, 0, false, false, false, false, p, p)
  }

  // The modes asked for, and whether that is a change.
  function Changed(o: Object, watcher: bool, marker: bool): (Object, bool) {
    (o.(watcher := watcher, marker := marker),
     (!o.watcher && !o.marker && !o.move && !o.drop) || o.watcher != watcher || o.marker != marker)
  }

  lemma {:induction false} NoReference(objects: Objects, hot: seq<Pair>, id: U32)
    requires id !in objects && AllLinked(objects, hot)
    ensures References(hot, id) == 0
  {
    if hot != [] {
      assert hot[0] in hot;
      NoReference(objects, hot[1..], id);
    }
  }

  lemma {:induction false} SomeReference(hot: seq<Pair>, p: Pair, id: U32)
    requires p in hot && Ends(p, id) > 0
    ensures References(hot, id) > 0
  {
    if p != hot[0] {
      SomeReference(hot[1..], p, id);
    }
  }

  // One object changes, without a move that its version would not show.
  lemma Updated(objects: Objects, hot: seq<Pair>, id: U32, o: Object)
    requires Sound(objects, hot) && Right(o, References(hot, id))
    requires id in objects ==> objects[id].version <= o.version && (o.version == objects[id].version && o.move ==> objects[id].move)
    ensures Sound(objects[id := o], hot)
  {
    hide Right;
    forall p <- hot
      ensures Linked(objects[id := o], p)
    {
      assert Linked(objects, p);
      if Ends(p, id) > 0 && id !in objects {
        NoReference(objects, hot, id);
        SomeReference(hot, p, id);
      }
    }
  }

  // An object without references is taken out.
  lemma Freed(objects: Objects, hot: seq<Pair>, id: U32)
    requires id in objects && References(hot, id) == 0 && AllLinked(objects, hot)
    requires forall k <- objects :: k != id ==> Right(objects[k], References(hot, k))
    ensures Counted(objects - {id}, hot) && AllLinked(objects - {id}, hot)
  {
    forall p <- hot
      ensures Linked(objects - {id}, p)
    {
      assert Linked(objects, p);
      if Ends(p, id) > 0 {
        SomeReference(hot, p, id);
      }
    }
  }

  // ---- an update ----

  // What a mode string asks for: to watch, to be seen, or, before anything that follows, to go.
  function Asked(modes: string): (bool, bool, bool) {
    if modes == [] then (false, false, false)
    else if modes[0] == 'd' then (false, false, true)
    else
      var (w, m, d) := Asked(modes[1..]);
      (w || modes[0] == 'w', m || modes[0] == 'm', d)
  }

  function Placed(o: Object, watcher: bool, marker: bool, position: Point, radius2: nat): Object {
    var back := if o.drop then o.(drop := false, ref := o.ref + 1) else o;
    var (o', changed) := Changed(back, watcher, marker);
    if changed || 4 * Dist2(position, o'.last) >= radius2
    then o'.(position := position, last := position, move := true, version := o'.version + 1)
    else o'.(position := position)
  }

  function Left(o: Object): Object {
    if o.drop then o else o.(ref := o.ref - 1, watcher := false, marker := false, move := false, drop := true)
  }

  // The letters tell all, in whatever order.
  lemma {:induction false} AskedMeans(modes: string)
    ensures var (w, m, d) := Asked(modes); (d <==> 'd' in modes) && (!d ==> (w <==> 'w' in modes) && (m <==> 'm' in modes))
  {
    if modes != [] {
      AskedMeans(modes[1..]);
      assert modes == [modes[0]] + modes[1..];
    }
  }

  // An object is never half a radius away from where its version was given out: a version
  // stands for one place and one set of modes, and a new one for a move still to be seen.
  lemma PlacedMeans(o: Object, watcher: bool, marker: bool, position: Point, radius2: nat)
    ensures var n := Placed(o, watcher, marker, position, radius2);
      && n.position == position && n.watcher == watcher && n.marker == marker && !n.drop
      && n.ref - o.ref == (if o.drop then 1 else 0) && o.version <= n.version <= o.version + 1
      && (radius2 > 0 ==> 4 * Dist2(n.position, n.last) < radius2)
      && (n.version == o.version ==> n.last == o.last && n.move == o.move && o.watcher == watcher && o.marker == marker)
      && (n.version != o.version ==> n.last == position && n.move)
      && (n.version == o.version <==>
            4 * Dist2(position, o.last) < radius2 && o.watcher == watcher && o.marker == marker && (watcher || marker || o.move))
  {
    NoDistance(position);
  }

  lemma NoDistance(p: Point)
    ensures Dist2(p, p) == 0
  {
  }

  // ---- a pair looked at again ----

  function Now(objects: Objects, p: Pair): nat
    requires p.watcher in objects && p.marker in objects
  {
    Dist2(objects[p.watcher].position, objects[p.marker].position)
  }

  predicate Current(objects: Objects, p: Pair)
    requires p.watcher in objects && p.marker in objects
  {
    && objects[p.watcher].version == p.watcherVersion && objects[p.marker].version == p.markerVersion
    && !objects[p.watcher].drop && !objects[p.marker].drop
  }

  // The pairs that stay: as they were made, and neither close nor far.
  function Kept(objects: Objects, hot: seq<Pair>, radius2: nat): (r: seq<Pair>)
    requires forall p <- hot :: p.watcher in objects && p.marker in objects
    ensures forall p <- r :: p in hot
  {
    if hot == [] then []
    else
      var p := hot[0];
      (if Current(objects, p) && radius2 <= Now(objects, p) <= 4 * radius2 then [p] else []) + Kept(objects, hot[1..], radius2)
  }

  // The pairs that have come close.
  function Met(objects: Objects, hot: seq<Pair>, radius2: nat): seq<(U32, U32)>
    requires forall p <- hot :: p.watcher in objects && p.marker in objects
  {
    if hot == [] then []
    else
      var p := hot[0];
      (if Current(objects, p) && Now(objects, p) < radius2 then [(p.watcher, p.marker)] else []) + Met(objects, hot[1..], radius2)
  }

  // Nothing but counts has changed, and only what was dropped is gone.
  ghost predicate SameButCounts(before: Objects, objects: Objects) {
    && (forall id <- objects :: id in before && objects[id] == before[id].(ref := objects[id].ref))
    && forall id <- before :: id in objects || before[id].drop
  }

  function Dropped(objects: Objects, id: U32): Objects
    requires id in objects
  {
    var o := objects[id];
    if o.ref - 1 <= 0 then objects - {id} else objects[id := o.(ref := o.ref - 1)]
  }

  lemma ReferencesWithout(hot: seq<Pair>, k: nat, id: U32)
    requires k < |hot|
    ensures References(hot[..k] + hot[k + 1..], id) == References(hot, id) - Ends(hot[k], id)
  {
    ReferencesConcat(hot[..k], hot[k + 1..], id);
    ReferencesConcat(hot[..k], hot[k..], id);
    assert hot == hot[..k] + hot[k..] && hot[k..][1..] == hot[k + 1..];
  }

  // Both objects of a pair have a reference less, and are there if any is left.
  lemma DroppedTwice(objects: Objects, p: Pair)
    requires p.watcher in objects && p.marker in objects && p.watcher != p.marker
    requires forall id <- objects :: objects[id].ref > 0
    ensures p.marker in Dropped(objects, p.watcher)
    ensures var left := Dropped(Dropped(objects, p.watcher), p.marker);
      && (forall id <- left :: id in objects && left[id] == objects[id].(ref := objects[id].ref - Ends(p, id)))
      && forall id <- objects :: id in left <==> objects[id].ref - Ends(p, id) > 0
  {
  }

  // A pair that is dropped gives back its two references.
  lemma PairDropped(objects: Objects, hot: seq<Pair>, k: nat)
    requires Sound(objects, hot) && k < |hot|
    ensures var p, rest := hot[k], hot[..k] + hot[k + 1..];
      && p.watcher in objects && p.marker in Dropped(objects, p.watcher)
      && var left := Dropped(Dropped(objects, p.watcher), p.marker);
         Sound(left, rest) && SameButCounts(objects, left)
  {
    var p, rest := hot[k], hot[..k] + hot[k + 1..];
    assert Linked(objects, p);
    DroppedTwice(objects, p);
    hide Dropped;
    var left := Dropped(Dropped(objects, p.watcher), p.marker);
    forall id <- objects
      ensures Right(objects[id], References(hot, id)) && References(rest, id) == References(hot, id) - Ends(p, id)
    {
      ReferencesWithout(hot, k, id);
    }
    forall q <- rest
      ensures Linked(left, q)
    {
      assert q in hot && Linked(objects, q);
      SomeReference(rest, q, q.watcher);
      SomeReference(rest, q, q.marker);
    }
  }

  // ---- who meets whom ----

  predicate IsClose(objects: Objects, w: U32, m: U32, radius2: nat) {
    w != m && w in objects && m in objects && Dist2(objects[w].position, objects[m].position) < radius2
  }

  predicate IsNear(objects: Objects, w: U32, m: U32, radius2: nat) {
    w != m && w in objects && m in objects && radius2 <= Dist2(objects[w].position, objects[m].position) <= 4 * radius2
  }

  function PairOf(objects: Objects, w: U32, m: U32): Pair
    requires w in objects && m in objects
  {
    Pair(w, m, objects[w].version, objects[m].version)
  }

  // What a watcher is told of when it meets all markers.
  function Told(objects: Objects, w: U32, markers: seq<U32>, radius2: nat): seq<(U32, U32)> {
    if markers == [] then []
    else
      var n := |markers| - 1;
      Told(objects, w, markers[..n], radius2) + if IsClose(objects, w, markers[n], radius2) then [(w, markers[n])] else []
  }

  function ToldAll(objects: Objects, watchers: seq<U32>, markers: seq<U32>, radius2: nat): seq<(U32, U32)> {
    if watchers == [] then []
    else
      var n := |watchers| - 1;
      ToldAll(objects, watchers[..n], markers, radius2) + Told(objects, watchers[n], markers, radius2)
  }

  // The pairs that it becomes an end of, the last one first.
  function Paired(objects: Objects, w: U32, markers: seq<U32>, radius2: nat): seq<Pair> {
    if markers == [] then []
    else
      var n := |markers| - 1;
      (if IsNear(objects, w, markers[n], radius2) then [PairOf(objects, w, markers[n])] else []) + Paired(objects, w, markers[..n], radius2)
  }

  function PairedAll(objects: Objects, watchers: seq<U32>, markers: seq<U32>, radius2: nat): seq<Pair> {
    if watchers == [] then []
    else
      var n := |watchers| - 1;
      Paired(objects, watchers[n], markers, radius2) + PairedAll(objects, watchers[..n], markers, radius2)
  }

  // Counts of references make no difference.
  lemma {:induction false} ToldSame(a: Objects, b: Objects, w: U32, markers: seq<U32>, radius2: nat)
    requires SameButRefs(a, b)
    ensures Told(a, w, markers, radius2) == Told(b, w, markers, radius2)
    ensures Paired(a, w, markers, radius2) == Paired(b, w, markers, radius2)
  {
    if markers != [] {
      ToldSame(a, b, w, markers[..|markers| - 1], radius2);
    }
  }

  lemma {:induction false} ToldAllSame(a: Objects, b: Objects, watchers: seq<U32>, markers: seq<U32>, radius2: nat)
    requires SameButRefs(a, b)
    ensures ToldAll(a, watchers, markers, radius2) == ToldAll(b, watchers, markers, radius2)
    ensures PairedAll(a, watchers, markers, radius2) == PairedAll(b, watchers, markers, radius2)
  {
    if watchers != [] {
      ToldSame(a, b, watchers[|watchers| - 1], markers, radius2);
      ToldAllSame(a, b, watchers[..|watchers| - 1], markers, radius2);
    }
  }

  lemma {:induction false} ToldMeans(objects: Objects, w: U32, markers: seq<U32>, radius2: nat)
    ensures forall e :: e in Told(objects, w, markers, radius2) <==> e.0 == w && e.1 in markers && IsClose(objects, w, e.1, radius2)
    ensures forall p :: p in Paired(objects, w, markers, radius2) <==>
      p.watcher == w && p.marker in markers && IsNear(objects, w, p.marker, radius2) && p == PairOf(objects, w, p.marker)
  {
    if markers != [] {
      var n := |markers| - 1;
      ToldMeans(objects, w, markers[..n], radius2);
      assert markers == markers[..n] + [markers[n]];
    }
  }

  // Exactly those of the watchers and the markers that are close are told of, and exactly
  // those that are near become a pair.
  lemma {:induction false} ToldAllMeans(objects: Objects, watchers: seq<U32>, markers: seq<U32>, radius2: nat)
    ensures forall e :: e in ToldAll(objects, watchers, markers, radius2) <==>
      e.0 in watchers && e.1 in markers && IsClose(objects, e.0, e.1, radius2)
    ensures forall p :: p in PairedAll(objects, watchers, markers, radius2) <==>
      p.watcher in watchers && p.marker in markers && IsNear(objects, p.watcher, p.marker, radius2) && p == PairOf(objects, p.watcher, p.marker)
  {
    if watchers != [] {
      var n := |watchers| - 1;
      ToldMeans(objects, watchers[n], markers, radius2);
      ToldAllMeans(objects, watchers[..n], markers, radius2);
      assert watchers == watchers[..n] + [watchers[n]];
    }
  }

  ghost predicate Once(events: seq<(U32, U32)>) {
    forall i, j | 0 <= i < j < |events| :: events[i] != events[j]
  }

  lemma OnceConcat(a: seq<(U32, U32)>, b: seq<(U32, U32)>)
    requires Once(a) && Once(b) && forall e <- a :: e !in b
    ensures Once(a + b)
  {
    forall i, j | 0 <= i < j < |a + b|
      ensures (a + b)[i] != (a + b)[j]
    {
      if i < |a| <= j {
        assert a[i] in a && b[j - |a|] in b;
      }
    }
  }

  lemma {:induction false} ToldOnce(objects: Objects, w: U32, markers: seq<U32>, radius2: nat)
    requires Distinct(markers)
    ensures Once(Told(objects, w, markers, radius2))
  {
    if markers != [] {
      var n := |markers| - 1;
      ToldOnce(objects, w, markers[..n], radius2);
      ToldMeans(objects, w, markers[..n], radius2);
      assert markers[n] !in markers[..n];
      OnceConcat(Told(objects, w, markers[..n], radius2), if IsClose(objects, w, markers[n], radius2) then [(w, markers[n])] else []);
    }
  }

  // Nobody is told twice of the same.
  lemma {:induction false} ToldAllOnce(objects: Objects, watchers: seq<U32>, markers: seq<U32>, radius2: nat)
    requires Distinct(watchers) && Distinct(markers)
    ensures Once(ToldAll(objects, watchers, markers, radius2))
  {
    if watchers != [] {
      var n := |watchers| - 1;
      ToldAllOnce(objects, watchers[..n], markers, radius2);
      ToldOnce(objects, watchers[n], markers, radius2);
      ToldAllMeans(objects, watchers[..n], markers, radius2);
      ToldMeans(objects, watchers[n], markers, radius2);
      assert watchers[n] !in watchers[..n];
      OnceConcat(ToldAll(objects, watchers[..n], markers, radius2), Told(objects, watchers[n], markers, radius2));
    }
  }

  // Which pairs a flush has told of, and which it keeps.
  predicate IsMet(objects: Objects, p: Pair, radius2: nat) {
    p.watcher in objects && p.marker in objects && Current(objects, p) && Now(objects, p) < radius2
  }

  predicate IsKept(objects: Objects, p: Pair, radius2: nat) {
    p.watcher in objects && p.marker in objects && Current(objects, p) && radius2 <= Now(objects, p) <= 4 * radius2
  }

  lemma {:induction false} FlushMeans(objects: Objects, hot: seq<Pair>, radius2: nat)
    requires AllLinked(objects, hot)
    ensures forall e :: e in Met(objects, hot, radius2) <==> exists p <- hot :: (p.watcher, p.marker) == e && IsMet(objects, p, radius2)
    ensures forall p :: p in Kept(objects, hot, radius2) <==> p in hot && IsKept(objects, p, radius2)
  {
    if hot != [] {
      assert Linked(objects, hot[0]);
      FlushMeans(objects, hot[1..], radius2);
      assert hot == [hot[0]] + hot[1..];
    }
  }

  lemma {:induction false} MetOnce(objects: Objects, hot: seq<Pair>, radius2: nat)
    requires AllLinked(objects, hot) && Unique(hot)
    ensures Once(Met(objects, hot, radius2))
  {
    if hot != [] {
      var p, rest := hot[0], hot[1..];
      assert Linked(objects, p);
      MetOnce(objects, rest, radius2);
      FlushMeans(objects, rest, radius2);
      forall q <- rest
        ensures (q.watcher, q.marker) != (p.watcher, p.marker)
      {
        var j :| 0 <= j < |rest| && rest[j] == q;
        assert hot[0].watcher != hot[j + 1].watcher || hot[0].marker != hot[j + 1].marker;
      }
      OnceConcat(if IsMet(objects, p, radius2) then [(p.watcher, p.marker)] else [], Met(objects, rest, radius2));
    }
  }

  // The slots lead from the ids of the objects to the objects.
  ghost predicate Tracks(slots: seq<M.Slot<U32>>, ids: set<U32>) {
    var found := M.Contents(slots);
    found.Keys == ids && forall id <- ids :: found[id] == id
  }

  lemma TracksMore(slots: seq<M.Slot<U32>>, slots': seq<M.Slot<U32>>, ids: set<U32>, id: U32)
    requires Tracks(slots, ids)
    requires var c := M.Contents(slots); M.Contents(slots') == if id in c then c else c[id := id]
    ensures Tracks(slots', ids + {id}) && (id in M.Contents(slots) ==> M.Contents(slots)[id] == id)
  {
  }

  lemma TracksLess(slots: seq<M.Slot<U32>>, slots': seq<M.Slot<U32>>, ids: set<U32>, id: U32)
    requires Tracks(slots, ids) && M.Contents(slots') == M.Contents(slots) - {id}
    ensures Tracks(slots', ids - {id})
  {
  }

  // The objects that the first slots lead to.
  ghost function First(slots: seq<M.Slot<U32>>, i: nat): set<U32>
    requires i <= |slots|
  {
    M.Contents(slots[..i]).Keys
  }

  lemma FirstNext(slots: seq<M.Slot<U32>>, rank: seq<int>, ids: set<U32>, i: nat)
    requires M.Sound(slots, rank) && Tracks(slots, ids) && i < |slots|
    ensures slots[i].obj.Null? ==> First(slots, i + 1) == First(slots, i)
    ensures slots[i].obj.To? ==> var id := slots[i].obj.obj;
      id in ids && id !in First(slots, i) && First(slots, i + 1) == First(slots, i) + {id}
  {
    M.ContentsNext(slots, rank, i);
    M.FoundAt(slots, rank, i);
  }

  lemma FirstEnds(slots: seq<M.Slot<U32>>, ids: set<U32>)
    requires Tracks(slots, ids)
    ensures First(slots, 0) == {} && First(slots, |slots|) == ids
  {
    assert slots[..|slots|] == slots;
  }

  class Space {
    var objects: Objects
    var hot: seq<Pair>
    const table: M.SlotMap<U32>
    const radius2: nat

    // The table leads to exactly the objects that are there.
    ghost predicate Indexed()
      reads this`objects, table, table.slot
    {
      table.Valid() && Tracks(table.slot[..], objects.Keys)
    }

    ghost predicate Valid()
      reads this, table, table.slot
    {
      Sound(objects, hot) && Indexed()
    }

    constructor (radius2: nat)
      ensures Valid() && objects == map[] && hot == [] && fresh(table) && fresh(table.slot)
    {
      objects, hot := map[], [];
      table := new M.SlotMap<U32>();
      this.radius2 := radius2;
    }

    // One reference less; the last one takes the object out.
    method DropObject(id: U32)
      requires id in objects && Indexed()
      modifies this`objects, table.slot
      ensures Indexed() && objects == Dropped(old(objects), id)
    {
      hide Tracks;
      var o := objects[id];
      objects := objects[id := o.(ref := o.ref - 1)];
      assert objects.Keys == old(objects).Keys;
      if objects[id].ref <= 0 {
        ghost var slots := table.slot[..];
        var gone := table.Drop(id);
        TracksLess(slots, table.slot[..], objects.Keys, id);
        objects := objects - {id};
      }
    }

    method DropPair(k: nat)
      requires Valid() && k < |hot|
      modifies this, table.slot
      ensures Valid() && hot == old(hot)[..k] + old(hot)[k + 1..] && SameButCounts(old(objects), objects)
    {
      hide Sound, Dropped, SameButCounts, Space.Indexed;
      var p := hot[k];
      PairDropped(objects, hot, k);
      DropObject(p.watcher);
      DropObject(p.marker);
      hot := hot[..k] + hot[k + 1..];
    }

    // The object of an id, which is a new one if there is none.
    method Fetch(id: U32, position: Point)
      requires Valid() && id != M.INVALID
      modifies this`objects, table, table.slot
      ensures Valid() && (table.slot == old(table.slot) || fresh(table.slot))
      ensures objects == if id in old(objects) then old(objects) else old(objects)[id := NewObject(position)]
    {
      hide Sound, Tracks, M.Sound, M.Contents;
      ghost var before, slots := objects, table.slot[..];
      var found := table.Query(id, id);
      TracksMore(slots, table.slot[..], before.Keys, id);
      if id !in objects {
        objects := objects[id := NewObject(position)];
        Appears(before, hot, id, position);
      }
      assert objects.Keys == before.Keys + {id};
    }

    // An object goes: it is marked and gives back its own reference.
    method Leave(id: U32)
      requires Valid() && id in objects
      modifies this`objects, table.slot
      ensures Valid()
      ensures var o := old(objects)[id];
        objects == if Left(o).ref <= 0 then old(objects) - {id} else old(objects)[id := Left(o)]
    {
      hide Sound, Tracks, M.Sound, M.Contents;
      ghost var before := objects;
      var o := objects[id];
      Leaves(before, hot, id);
      if !o.drop {
        objects := objects[id := Left(o).(ref := o.ref)];
        assert objects.Keys == before.Keys;
        DropObject(id);
      }
      assert objects == if Left(o).ref <= 0 then before - {id} else before[id := Left(o)];
    }

    // An object appears, moves, changes what it does, or goes.
    method Update(id: U32, modes: string, position: Point)
      requires Valid() && id != M.INVALID
      modifies this`objects, table, table.slot
      ensures Valid() && (table.slot == old(table.slot) || fresh(table.slot))
      ensures var o := if id in old(objects) then old(objects)[id] else NewObject(position);
        var (w, m, d) := Asked(modes);
        objects == if !d then old(objects)[id := Placed(o, w, m, position, radius2)]
                   else if Left(o).ref <= 0 then old(objects) - {id}
                   else old(objects)[id := Left(o)]
    {
      hide Sound, Dist2, Tracks, M.Sound, M.Contents;
      ghost var before := objects;
      Fetch(id, position);
      ghost var ids := objects.Keys;
      var o := objects[id];
      RightOf(objects, hot, id);
      var w, m, i := false, false, 0;
      assert modes[0..] == modes;
      while i < |modes|
        invariant 0 <= i <= |modes| && objects == before[id := o] && Valid()
        invariant Asked(modes) == (var (w', m', d) := Asked(modes[i..]); (if d then w' || w else w || w', if d then m' || m else m || m', d))
      {
        assert modes[i..][1..] == modes[i + 1..];
        if modes[i] == 'w' {
          w := true;
        } else if modes[i] == 'm' {
          m := true;
        } else if modes[i] == 'd' {
          Leave(id);
          ghost var there := before[id := o];
          assert there - {id} == before - {id} && there[id := Left(o)] == before[id := Left(o)];
          return;
        }
        i := i + 1;
      }
      Updated(before[id := o], hot, id, Placed(o, w, m, position, radius2));
      objects := objects[id := Placed(o, w, m, position, radius2)];
      assert objects.Keys == ids;
    }

    // Looks at the pairs again: those that have changed, or have come close, or gone far, are
    // dropped; those that have come close are told.
    method FlushPair() returns (events: seq<(U32, U32)>)
      requires Valid()
      modifies this, table.slot
      ensures Valid() && AllLinked(old(objects), old(hot))
      ensures hot == Kept(old(objects), old(hot), radius2) && events == Met(old(objects), old(hot), radius2)
      ensures SameButCounts(old(objects), objects)
    {
      hide Sound, Kept, Met, Dist2, Space.Indexed;
      ghost var before, all := objects, hot;
      ghost var kept: seq<Pair>, rest: seq<Pair> := [], hot;
      var k := 0;
      events := [];
      SoundLinks(objects, hot);
      assert kept + rest == hot;
      while k < |hot|
        invariant Valid() && hot == kept + rest && k == |kept| && SameButCounts(before, objects)
        invariant AllLinked(before, rest) && Kept(before, all, radius2) == kept + Kept(before, rest, radius2)
        invariant Met(before, all, radius2) == events + Met(before, rest, radius2)
        decreases |rest|
      {
        var p := hot[k];
        StillThere(before, objects, hot, rest, radius2);
        assert rest[0] == p;
        var near, far := false, true;
        if Current(objects, p) {
          var d := Now(objects, p);
          near, far := d < radius2, d > 4 * radius2;
        }
        if near {
          events := events + [(p.watcher, p.marker)];
        }
        if near || far {
          DropPair(k);
        } else {
          kept, k := kept + [p], k + 1;
        }
        rest := rest[1..];
      }
      NoPairs(before, radius2);
      assert rest == [];
    }

    // Sorts the objects by what they do and whether they have moved, and notes that they are
    // seen.
    method PushAll() returns (ws: seq<U32>, wm: seq<U32>, ms: seq<U32>, mm: seq<U32>)
      requires Valid()
      modifies this`objects
      ensures Valid() && objects == Settled(old(objects), old(objects).Keys)
      ensures Chosen(ws, old(objects), old(objects).Keys, true, false) && Chosen(wm, old(objects), old(objects).Keys, true, true)
      ensures Chosen(ms, old(objects), old(objects).Keys, false, false) && Chosen(mm, old(objects), old(objects).Keys, false, true)
    {
      hide Sound, Chosen, Settled, Is, Tracks, First;
      ghost var before, slots := objects, table.slot[..];
      ws, wm, ms, mm := [], [], [], [];
      NoneChosen(before);
      FirstEnds(slots, before.Keys);
      var i := 0;
      while i < table.slot.Length
        invariant Valid() && 0 <= i <= |slots| && slots == table.slot[..] && objects.Keys == before.Keys
        invariant objects == Settled(before, First(slots, i))
        invariant Chosen(ws, before, First(slots, i), true, false) && Chosen(wm, before, First(slots, i), true, true)
        invariant Chosen(ms, before, First(slots, i), false, false) && Chosen(mm, before, First(slots, i), false, true)
      {
        ghost var done := First(slots, i);
        FirstNext(slots, table.rank, before.Keys, i);
        if table.slot[i].obj.To? {
          var id := table.slot[i].obj.obj;
          ghost var ws0, wm0, ms0, mm0 := ws, wm, ms, mm;
          SettledMore(before, done, id);
          var o := objects[id];
          if o.watcher {
            if o.move { wm := wm + [id]; } else { ws := ws + [id]; }
          }
          if o.marker {
            if o.move { mm := mm + [id]; } else { ms := ms + [id]; }
          }
          ChosenMore(ws0, before, done, id, true, false);
          ChosenMore(wm0, before, done, id, true, true);
          ChosenMore(ms0, before, done, id, false, false);
          ChosenMore(mm0, before, done, id, false, true);
          RightOf(objects, hot, id);
          Updated(objects, hot, id, Seen(o));
          objects := objects[id := Seen(o)];
          assert objects.Keys == before.Keys;
        }
        i := i + 1;
      }
    }

    // Tells a watcher of a marker that is close, or keeps the two as a pair if they are near.
    method GenPair(w: U32, m: U32) returns (events: seq<(U32, U32)>)
      requires Valid() && Resting(objects, w) && Resting(objects, m) && forall p <- hot :: p.watcher != w || p.marker != m
      modifies this
      ensures Valid() && SameButRefs(old(objects), objects)
      ensures var d := Dist2(old(objects)[w].position, old(objects)[m].position);
        && events == (if w != m && d < radius2 then [(w, m)] else [])
        && hot == (if w != m && radius2 <= d <= 4 * radius2
                   then [Pair(w, m, old(objects)[w].version, old(objects)[m].version)] else []) + old(hot)
    {
      hide Sound, Dist2, Tracks;
      events := [];
      assert [] + hot == hot;
      if w == m {
        return;
      }
      var a, b := objects[w], objects[m];
      var d := Dist2(a.position, b.position);
      if d < radius2 {
        events := [(w, m)];
        return;
      }
      if d > 4 * radius2 {
        return;
      }
      var p := Pair(w, m, a.version, b.version);
      PairAdded(objects, hot, p);
      objects := objects[w := a.(ref := a.ref + 1)];
      objects := objects[m := b.(ref := b.ref + 1)];
      hot := [p] + hot;
    }

    method WithAll(w: U32, markers: seq<U32>) returns (events: seq<(U32, U32)>)
      requires Valid() && Distinct(markers) && Resting(objects, w)
      requires forall id <- markers :: Resting(objects, id)
      requires forall p <- hot :: p.watcher != w || p.marker !in markers
      modifies this
      ensures Valid() && SameButRefs(old(objects), objects)
      ensures events == Told(old(objects), w, markers, radius2) && hot == Paired(old(objects), w, markers, radius2) + old(hot)
    {
      hide Sound, Resting, SameButRefs, Dist2, Told, Paired, Space.Indexed;
      ghost var before, first := objects, hot;
      SameRefs(objects);
      NoneTold(before, w, [], first, radius2);
      events := [];
      var j := 0;
      assert markers[..0] == [];
      while j < |markers|
        invariant 0 <= j <= |markers| && Valid() && SameButRefs(before, objects)
        invariant events == Told(before, w, markers[..j], radius2) && hot == Paired(before, w, markers[..j], radius2) + first
      {
        ghost var mid, hot0 := objects, hot;
        assert markers[j] in markers && markers[j] !in markers[..j];
        RefsRest(before, mid, w);
        RefsRest(before, mid, markers[j]);
        ToldMeans(before, w, markers[..j], radius2);
        var more := GenPair(w, markers[j]);
        TellsOne(before, mid, w, markers, j, more, events, hot0, hot, first, radius2);
        events := events + more;
        RefsLater(before, mid, objects);
        j := j + 1;
      }
      assert markers[..j] == markers;
    }

    // Every watcher of one list with every marker of the other.
    method GenPairList(watchers: seq<U32>, markers: seq<U32>) returns (events: seq<(U32, U32)>)
      requires Valid() && Distinct(watchers) && Distinct(markers)
      requires forall id <- watchers + markers :: Resting(objects, id)
      requires forall p <- hot :: p.watcher !in watchers || p.marker !in markers
      modifies this
      ensures Valid() && SameButRefs(old(objects), objects)
      ensures events == ToldAll(old(objects), watchers, markers, radius2) && hot == PairedAll(old(objects), watchers, markers, radius2) + old(hot)
    {
      hide Sound, Resting, SameButRefs, Told, Paired, ToldAll, PairedAll, Space.Indexed;
      ghost var before, first := objects, hot;
      SameRefs(objects);
      NoneTold(before, 0, markers, first, radius2);
      events := [];
      var i := 0;
      assert watchers[..0] == [];
      while i < |watchers|
        invariant 0 <= i <= |watchers| && Valid() && SameButRefs(before, objects)
        invariant events == ToldAll(before, watchers[..i], markers, radius2) && hot == PairedAll(before, watchers[..i], markers, radius2) + first
      {
        ghost var mid, hot0 := objects, hot;
        assert watchers[i] in watchers && watchers[i] !in watchers[..i];
        forall id <- watchers + markers
          ensures Resting(objects, id)
        {
          RefsRest(before, mid, id);
        }
        assert watchers[i] in watchers + markers && forall id <- markers :: id in watchers + markers;
        ToldAllMeans(before, watchers[..i], markers, radius2);
        var more := WithAll(watchers[i], markers);
        TellsRow(before, mid, watchers, i, markers, more, events, hot0, hot, first, radius2);
        events := events + more;
        RefsLater(before, mid, objects);
        i := i + 1;
      }
      assert watchers[..i] == watchers;
    }

    // One round: the pairs are looked at again, and whoever has moved meets all others. It is
    // told exactly, and each time once, of the pairs that have come close, and of a watcher and
    // a marker of which one had moved if they are close; the pairs are exactly those that stay
    // and those of a watcher and a marker of which one had moved and that are near. Nothing
    // that watches or is seen counts as moved any more.
    method Message() returns (events: seq<(U32, U32)>)
      requires Valid()
      modifies this, table.slot
      ensures Valid() && Unique(hot) && Once(events)
      ensures forall id <- objects :: id in old(objects) && (objects[id].watcher || objects[id].marker ==> !objects[id].move)
      ensures forall id <- old(objects) :: id in objects || old(objects)[id].drop
      ensures forall e :: e in events <==>
        || (exists p <- old(hot) :: (p.watcher, p.marker) == e && IsMet(old(objects), p, radius2))
        || (Meet(old(objects), objects.Keys, e.0, e.1) && IsClose(old(objects), e.0, e.1, radius2))
      ensures forall p :: p in hot <==>
        || (p in old(hot) && IsKept(old(objects), p, radius2))
        || (Meet(old(objects), objects.Keys, p.watcher, p.marker) && IsNear(old(objects), p.watcher, p.marker, radius2) &&
            p == PairOf(old(objects), p.watcher, p.marker))
    {
      hide Sound, Kept, Met, Chosen, SetsOf, Settled, Resting, SameButRefs, SameButCounts, ToldAll, PairedAll, Space.Indexed, IsClose, IsNear, IsMet, IsKept,
        Meet, Dist2, Once, Unique;
      ghost var before, hot0 := objects, hot;
      SoundUnique(objects, hot);
      var met := FlushPair();
      ghost var flushed, kept := objects, hot;
      KeptRests(before, hot0, flushed, hot, radius2);
      var ws, wm, ms, mm := PushAll();
      ghost var settled, s := objects, Sets(ws, wm, ms, mm);
      SetsAre(flushed, s);
      SameRefs(settled);
      AllRest(flushed, settled, settled, s);
      RoundApart(flushed, kept, settled, settled, s, radius2);
      var e1 := GenPairList(ws, mm);
      ghost var objects1 := objects;
      AllRest(flushed, settled, objects1, s);
      RoundApart(flushed, kept, settled, objects1, s, radius2);
      var e2 := GenPairList(wm, ms);
      ghost var objects2 := objects;
      RefsLater(settled, objects1, objects2);
      AllRest(flushed, settled, objects2, s);
      var e3 := GenPairList(wm, mm);
      events := met + e1 + e2 + e3;
      SoundUnique(objects, hot);
      RefsLater(settled, objects2, objects);
      RoundMeans(before, hot0, flushed, settled, s, objects1, objects2, objects, met, e1, e2, e3, kept, hot, radius2);
      RoundLeaves(before, flushed, settled, objects);
    }
  }

  lemma SetsAre(objects: Objects, s: Sets)
    requires Chosen(s.ws, objects, objects.Keys, true, false) && Chosen(s.wm, objects, objects.Keys, true, true)
    requires Chosen(s.ms, objects, objects.Keys, false, false) && Chosen(s.mm, objects, objects.Keys, false, true)
    ensures SetsOf(objects, s)
  {
  }

  // All objects looked at are there, each once, and count as not moved.
  lemma AllRest(flushed: Objects, settled: Objects, objects: Objects, s: Sets)
    requires SetsOf(flushed, s) && settled == Settled(flushed, flushed.Keys) && SameButRefs(settled, objects)
    ensures Distinct(s.ws) && Distinct(s.wm) && Distinct(s.ms) && Distinct(s.mm)
    ensures forall id <- s.ws + s.mm :: Resting(objects, id)
    ensures forall id <- s.wm + s.ms :: Resting(objects, id)
    ensures forall id <- s.wm + s.mm :: Resting(objects, id)
  {
    Rests(flushed, settled, s.ws, true, false);
    Rests(flushed, settled, s.wm, true, true);
    Rests(flushed, settled, s.ms, false, false);
    Rests(flushed, settled, s.mm, false, true);
    hide Settled, Resting, Chosen, SameButRefs;
    forall id | id in s.ws || id in s.wm || id in s.ms || id in s.mm
      ensures Resting(objects, id)
    {
      RefsRest(settled, objects, id);
    }
  }

  // No two of the steps, nor the flush, look at the same two.
  lemma RoundApart(flushed: Objects, kept: seq<Pair>, settled: Objects, objects1: Objects, s: Sets, radius2: nat)
    requires SetsOf(flushed, s) && forall p <- kept :: Resting(flushed, p.watcher) && Resting(flushed, p.marker)
    ensures forall p <- kept :: p.watcher !in s.ws || p.marker !in s.mm
    ensures forall p <- PairedAll(settled, s.ws, s.mm, radius2) + kept :: p.watcher !in s.wm || p.marker !in s.ms
    ensures forall p <- PairedAll(objects1, s.wm, s.ms, radius2) + (PairedAll(settled, s.ws, s.mm, radius2) + kept) :: p.watcher !in s.wm || p.marker !in s.mm
  {
    ToldAllMeans(settled, s.ws, s.mm, radius2);
    ToldAllMeans(objects1, s.wm, s.ms, radius2);
    forall w, m
      ensures w in s.ws <==> w in flushed && flushed[w].watcher && !flushed[w].move
      ensures w in s.wm <==> w in flushed && flushed[w].watcher && flushed[w].move
      ensures m in s.ms <==> m in flushed && flushed[m].marker && !flushed[m].move
      ensures m in s.mm <==> m in flushed && flushed[m].marker && flushed[m].move
    {
      SetsMean(flushed, s, w, m);
    }
  }

  lemma RoundLeaves(before: Objects, flushed: Objects, settled: Objects, objects: Objects)
    requires SameButCounts(before, flushed) && settled == Settled(flushed, flushed.Keys) && SameButRefs(settled, objects)
    ensures forall id <- objects :: id in before && (objects[id].watcher || objects[id].marker ==> !objects[id].move)
    ensures forall id <- before :: id in objects || before[id].drop
  {
    SettledSame(flushed);
  }

  // A watcher and a marker of which one had moved.
  predicate Meet(before: Objects, there: set<U32>, w: U32, m: U32) {
    && w in before && m in before && w in there && m in there
    && before[w].watcher && before[m].marker && (before[w].move || before[m].move)
  }

  // The four sets of a round.
  datatype Sets = Sets(ws: seq<U32>, wm: seq<U32>, ms: seq<U32>, mm: seq<U32>)

  ghost predicate SetsOf(objects: Objects, s: Sets) {
    && Chosen(s.ws, objects, objects.Keys, true, false) && Chosen(s.wm, objects, objects.Keys, true, true)
    && Chosen(s.ms, objects, objects.Keys, false, false) && Chosen(s.mm, objects, objects.Keys, false, true)
  }

  // Who is in which set.
  lemma SetsMean(objects: Objects, s: Sets, w: U32, m: U32)
    requires SetsOf(objects, s)
    ensures w in s.ws <==> w in objects && objects[w].watcher && !objects[w].move
    ensures w in s.wm <==> w in objects && objects[w].watcher && objects[w].move
    ensures m in s.ms <==> m in objects && objects[m].marker && !objects[m].move
    ensures m in s.mm <==> m in objects && objects[m].marker && objects[m].move
    ensures Distinct(s.ws) && Distinct(s.wm) && Distinct(s.ms) && Distinct(s.mm)
  {
  }

  // The three steps of a round together.
  function Steps(objects: Objects, s: Sets, radius2: nat): seq<(U32, U32)> {
    ToldAll(objects, s.ws, s.mm, radius2) + ToldAll(objects, s.wm, s.ms, radius2) + ToldAll(objects, s.wm, s.mm, radius2)
  }

  function PairedSteps(objects: Objects, s: Sets, radius2: nat): seq<Pair> {
    PairedAll(objects, s.wm, s.mm, radius2) + (PairedAll(objects, s.wm, s.ms, radius2) + PairedAll(objects, s.ws, s.mm, radius2))
  }

  lemma StepsMean(flushed: Objects, s: Sets, radius2: nat)
    requires SetsOf(flushed, s)
    ensures forall e :: e in Steps(Settled(flushed, flushed.Keys), s, radius2) <==>
      Meet(flushed, flushed.Keys, e.0, e.1) && IsClose(flushed, e.0, e.1, radius2)
    ensures forall p :: p in PairedSteps(Settled(flushed, flushed.Keys), s, radius2) <==>
      Meet(flushed, flushed.Keys, p.watcher, p.marker) && IsNear(flushed, p.watcher, p.marker, radius2) && p == PairOf(flushed, p.watcher, p.marker)
    ensures Once(Steps(Settled(flushed, flushed.Keys), s, radius2))
  {
    var settled := Settled(flushed, flushed.Keys);
    SettledSame(flushed);
    hide SetsOf, ToldAll, PairedAll, Settled;
    ToldAllMeans(settled, s.ws, s.mm, radius2);
    ToldAllMeans(settled, s.wm, s.ms, radius2);
    ToldAllMeans(settled, s.wm, s.mm, radius2);
    forall w, m
      ensures w in s.ws <==> w in flushed && flushed[w].watcher && !flushed[w].move
      ensures w in s.wm <==> w in flushed && flushed[w].watcher && flushed[w].move
      ensures m in s.ms <==> m in flushed && flushed[m].marker && !flushed[m].move
      ensures m in s.mm <==> m in flushed && flushed[m].marker && flushed[m].move
    {
      SetsMean(flushed, s, w, m);
    }
    SetsMean(flushed, s, 0, 0);
    ToldAllOnce(settled, s.ws, s.mm, radius2);
    ToldAllOnce(settled, s.wm, s.ms, radius2);
    ToldAllOnce(settled, s.wm, s.mm, radius2);
    OnceConcat(ToldAll(settled, s.ws, s.mm, radius2), ToldAll(settled, s.wm, s.ms, radius2));
    OnceConcat(ToldAll(settled, s.ws, s.mm, radius2) + ToldAll(settled, s.wm, s.ms, radius2), ToldAll(settled, s.wm, s.mm, radius2));
  }

  lemma RoundMeans(before: Objects, hot0: seq<Pair>, flushed: Objects, settled: Objects, s: Sets, objects1: Objects, objects2: Objects, objects: Objects,
                   met: seq<(U32, U32)>, e1: seq<(U32, U32)>, e2: seq<(U32, U32)>, e3: seq<(U32, U32)>, kept: seq<Pair>, hot: seq<Pair>, radius2: nat)
    requires AllLinked(before, hot0) && Unique(hot0) && SameButCounts(before, flushed)
    requires met == Met(before, hot0, radius2) && kept == Kept(before, hot0, radius2)
    requires SetsOf(flushed, s) && settled == Settled(flushed, flushed.Keys)
    requires SameButRefs(settled, objects1) && SameButRefs(objects1, objects2) && SameButRefs(objects2, objects)
    requires e1 == ToldAll(settled, s.ws, s.mm, radius2) && e2 == ToldAll(objects1, s.wm, s.ms, radius2) && e3 == ToldAll(objects2, s.wm, s.mm, radius2)
    requires hot == PairedAll(objects2, s.wm, s.mm, radius2) + (PairedAll(objects1, s.wm, s.ms, radius2) + (PairedAll(settled, s.ws, s.mm, radius2) + kept))
    ensures objects.Keys == flushed.Keys && Once(met + e1 + e2 + e3)
    ensures forall e :: e in met + e1 + e2 + e3 <==>
      || (exists p <- hot0 :: (p.watcher, p.marker) == e && IsMet(before, p, radius2))
      || (Meet(before, objects.Keys, e.0, e.1) && IsClose(before, e.0, e.1, radius2))
    ensures forall p :: p in hot <==>
      || (p in hot0 && IsKept(before, p, radius2))
      || (Meet(before, objects.Keys, p.watcher, p.marker) && IsNear(before, p.watcher, p.marker, radius2) && p == PairOf(before, p.watcher, p.marker))
  {
    hide Met, Kept, SetsOf, Settled, ToldAll, PairedAll, AllLinked, Unique, IsMet, IsKept, IsClose, IsNear, Once, Steps, PairedSteps, SameButCounts, SameButRefs, Meet;
    StepsAre(settled, s, objects1, objects2, objects, met, e1, e2, e3, kept, hot, radius2);
    StepsMean(flushed, s, radius2);
    FlushMeans(before, hot0, radius2);
    MetOnce(before, hot0, radius2);
    KeysStay(flushed, settled, objects1, objects2, objects);
    forall w: U32, m: U32
      ensures Meet(before, flushed.Keys, w, m) <==> Meet(flushed, flushed.Keys, w, m)
      ensures Meet(flushed, flushed.Keys, w, m) ==>
        && (IsClose(flushed, w, m, radius2) <==> IsClose(before, w, m, radius2))
        && (IsNear(flushed, w, m, radius2) <==> IsNear(before, w, m, radius2))
        && w in before && m in before && w in flushed && m in flushed && PairOf(flushed, w, m) == PairOf(before, w, m)
    {
      MeetSame(before, flushed, w, m, radius2);
    }
    forall e <- met
      ensures e !in Steps(settled, s, radius2)
    {
      var p :| p in hot0 && (p.watcher, p.marker) == e && IsMet(before, p, radius2);
      MetRests(before, hot0, p, flushed, radius2);
    }
    OnceConcat(met, Steps(settled, s, radius2));
  }

  // A pair that is met had not moved.
  lemma MetRests(before: Objects, hot0: seq<Pair>, p: Pair, flushed: Objects, radius2: nat)
    requires AllLinked(before, hot0) && p in hot0 && IsMet(before, p, radius2) && SameButCounts(before, flushed)
    ensures !Meet(flushed, flushed.Keys, p.watcher, p.marker)
  {
    assert Linked(before, p);
  }

  lemma MeetSame(before: Objects, flushed: Objects, w: U32, m: U32, radius2: nat)
    requires SameButCounts(before, flushed)
    ensures Meet(before, flushed.Keys, w, m) <==> Meet(flushed, flushed.Keys, w, m)
    ensures Meet(flushed, flushed.Keys, w, m) ==>
      && (IsClose(flushed, w, m, radius2) <==> IsClose(before, w, m, radius2))
      && (IsNear(flushed, w, m, radius2) <==> IsNear(before, w, m, radius2))
      && w in before && m in before && w in flushed && m in flushed && PairOf(flushed, w, m) == PairOf(before, w, m)
  {
  }

  lemma KeysStay(flushed: Objects, settled: Objects, objects1: Objects, objects2: Objects, objects: Objects)
    requires settled == Settled(flushed, flushed.Keys)
    requires SameButRefs(settled, objects1) && SameButRefs(objects1, objects2) && SameButRefs(objects2, objects)
    ensures objects.Keys == flushed.Keys
  {
    SettledSame(flushed);
  }

  lemma StepsAre(settled: Objects, s: Sets, objects1: Objects, objects2: Objects, objects: Objects,
                 met: seq<(U32, U32)>, e1: seq<(U32, U32)>, e2: seq<(U32, U32)>, e3: seq<(U32, U32)>, kept: seq<Pair>, hot: seq<Pair>, radius2: nat)
    requires SameButRefs(settled, objects1) && SameButRefs(objects1, objects2)
    requires e1 == ToldAll(settled, s.ws, s.mm, radius2) && e2 == ToldAll(objects1, s.wm, s.ms, radius2) && e3 == ToldAll(objects2, s.wm, s.mm, radius2)
    requires hot == PairedAll(objects2, s.wm, s.mm, radius2) + (PairedAll(objects1, s.wm, s.ms, radius2) + (PairedAll(settled, s.ws, s.mm, radius2) + kept))
    ensures met + e1 + e2 + e3 == met + Steps(settled, s, radius2) && hot == PairedSteps(settled, s, radius2) + kept
  {
    hide SameButRefs, ToldAll, PairedAll;
    RefsLater(settled, objects1, objects2);
    ToldAllSame(settled, objects1, s.wm, s.ms, radius2);
    ToldAllSame(settled, objects2, s.wm, s.mm, radius2);
  }

  lemma NoneTold(objects: Objects, w: U32, markers: seq<U32>, first: seq<Pair>, radius2: nat)
    ensures Told(objects, w, [], radius2) == [] && Paired(objects, w, [], radius2) + first == first
    ensures ToldAll(objects, [], markers, radius2) == [] && PairedAll(objects, [], markers, radius2) + first == first
  {
  }

  // One marker more.
  lemma TellsOne(before: Objects, mid: Objects, w: U32, markers: seq<U32>, j: nat, more: seq<(U32, U32)>, events: seq<(U32, U32)>,
                 hot0: seq<Pair>, hot: seq<Pair>, first: seq<Pair>, radius2: nat)
    requires SameButRefs(before, mid) && j < |markers| && w in mid && markers[j] in mid
    requires events == Told(before, w, markers[..j], radius2) && hot0 == Paired(before, w, markers[..j], radius2) + first
    requires var m := markers[j]; var d := Dist2(mid[w].position, mid[m].position);
      && more == (if w != m && d < radius2 then [(w, m)] else [])
      && hot == (if w != m && radius2 <= d <= 4 * radius2 then [Pair(w, m, mid[w].version, mid[m].version)] else []) + hot0
    ensures events + more == Told(before, w, markers[..j + 1], radius2) && hot == Paired(before, w, markers[..j + 1], radius2) + first
  {
    assert markers[..j + 1][..j] == markers[..j];
  }

  // One watcher more.
  lemma TellsRow(before: Objects, mid: Objects, watchers: seq<U32>, i: nat, markers: seq<U32>, more: seq<(U32, U32)>, events: seq<(U32, U32)>,
                 hot0: seq<Pair>, hot: seq<Pair>, first: seq<Pair>, radius2: nat)
    requires SameButRefs(before, mid) && i < |watchers|
    requires events == ToldAll(before, watchers[..i], markers, radius2) && hot0 == PairedAll(before, watchers[..i], markers, radius2) + first
    requires more == Told(mid, watchers[i], markers, radius2) && hot == Paired(mid, watchers[i], markers, radius2) + hot0
    ensures events + more == ToldAll(before, watchers[..i + 1], markers, radius2) && hot == PairedAll(before, watchers[..i + 1], markers, radius2) + first
  {
    ToldSame(before, mid, watchers[i], markers, radius2);
    assert watchers[..i + 1][..i] == watchers[..i];
  }

  lemma SettledSame(objects: Objects)
    ensures var s := Settled(objects, objects.Keys); s.Keys == objects.Keys && forall id <- objects :: s[id] == Seen(objects[id])
  {
  }

  // The objects looked at are there and count as not moved.
  lemma Rests(before: Objects, objects: Objects, s: seq<U32>, watchers: bool, moved: bool)
    requires objects == Settled(before, before.Keys) && Chosen(s, before, before.Keys, watchers, moved)
    ensures Distinct(s) && forall id <- s :: Resting(objects, id) && before[id].move == moved
  {
  }

  // Neither end of a pair that stays has moved.
  lemma KeptRests(before: Objects, all: seq<Pair>, objects: Objects, hot: seq<Pair>, radius2: nat)
    requires AllLinked(before, all) && hot == Kept(before, all, radius2) && SameButCounts(before, objects) && Sound(objects, hot)
    ensures forall p <- hot :: Resting(objects, p.watcher) && Resting(objects, p.marker)
  {
    KeptCurrent(before, all, radius2);
    forall p <- hot
      ensures Resting(objects, p.watcher) && Resting(objects, p.marker)
    {
      assert p in all && Linked(before, p) && Linked(objects, p);
    }
  }

  lemma {:induction false} KeptCurrent(objects: Objects, hot: seq<Pair>, radius2: nat)
    requires AllLinked(objects, hot)
    ensures forall p <- Kept(objects, hot, radius2) :: p in hot && Current(objects, p)
  {
    if hot != [] {
      assert Linked(objects, hot[0]);
      KeptCurrent(objects, hot[1..], radius2);
    }
  }

  // An object that is there and has not moved.
  predicate Resting(objects: Objects, id: U32) {
    id in objects && !objects[id].move
  }

  ghost predicate Distinct(s: seq<U32>) {
    forall i, j | 0 <= i < j < |s| :: s[i] != s[j]
  }

  // Nothing but counts has changed.
  ghost predicate SameButRefs(before: Objects, objects: Objects) {
    objects.Keys == before.Keys && forall id <- objects :: objects[id] == before[id].(ref := objects[id].ref)
  }

  lemma RefsRest(before: Objects, objects: Objects, id: U32)
    requires SameButRefs(before, objects) && Resting(before, id)
    ensures Resting(objects, id)
  {
  }

  lemma RefsLater(a: Objects, b: Objects, c: Objects)
    requires SameButRefs(a, b) && SameButRefs(b, c)
    ensures SameButRefs(a, c)
  {
  }

  lemma SameRefs(objects: Objects)
    ensures SameButRefs(objects, objects)
  {
  }

  // A new pair takes two references.
  lemma PairAdded(objects: Objects, hot: seq<Pair>, p: Pair)
    requires Sound(objects, hot) && p.watcher != p.marker && Resting(objects, p.watcher) && Resting(objects, p.marker)
    requires p.watcherVersion == objects[p.watcher].version && p.markerVersion == objects[p.marker].version
    requires forall q <- hot :: q.watcher != p.watcher || q.marker != p.marker
    ensures var a, b := objects[p.watcher], objects[p.marker];
      var more := objects[p.watcher := a.(ref := a.ref + 1)][p.marker := b.(ref := b.ref + 1)];
      Sound(more, [p] + hot) && SameButRefs(objects, more)
  {
    var a, b := objects[p.watcher], objects[p.marker];
    var more := objects[p.watcher := a.(ref := a.ref + 1)][p.marker := b.(ref := b.ref + 1)];
    AddedTwice(objects, p);
    SoundParts(objects, hot);
    hide Counted, AllLinked, Unique, Resting, SameButRefs, Right, References;
    CountedMore(objects, more, hot, p);
    LinksAdded(objects, more, hot, p);
    UniqueAdded(hot, p);
  }

  lemma SoundParts(objects: Objects, hot: seq<Pair>)
    requires Sound(objects, hot)
    ensures Counted(objects, hot) && AllLinked(objects, hot) && Unique(hot)
  {
  }

  lemma AddedTwice(objects: Objects, p: Pair)
    requires p.watcher in objects && p.marker in objects && p.watcher != p.marker
    ensures var a, b := objects[p.watcher], objects[p.marker];
      var more := objects[p.watcher := a.(ref := a.ref + 1)][p.marker := b.(ref := b.ref + 1)];
      SameButRefs(objects, more) && forall id <- objects :: more[id] == objects[id].(ref := objects[id].ref + Ends(p, id))
  {
  }

  lemma CountedMore(objects: Objects, more: Objects, hot: seq<Pair>, p: Pair)
    requires Counted(objects, hot) && more.Keys == objects.Keys
    requires forall id <- objects :: more[id] == objects[id].(ref := objects[id].ref + Ends(p, id))
    ensures Counted(more, [p] + hot)
  {
    forall id <- more
      ensures Right(more[id], References([p] + hot, id))
    {
      assert ([p] + hot)[1..] == hot;
      assert Right(objects[id], References(hot, id));
    }
  }

  lemma LinksAdded(objects: Objects, more: Objects, hot: seq<Pair>, p: Pair)
    requires AllLinked(objects, hot) && SameButRefs(objects, more) && p.watcher != p.marker
    requires Resting(objects, p.watcher) && Resting(objects, p.marker)
    requires p.watcherVersion == objects[p.watcher].version && p.markerVersion == objects[p.marker].version
    ensures AllLinked(more, [p] + hot)
  {
    forall q <- [p] + hot
      ensures Linked(more, q)
    {
      assert q == p || Linked(objects, q);
    }
  }

  lemma UniqueAdded(hot: seq<Pair>, p: Pair)
    requires Unique(hot) && forall q <- hot :: q.watcher != p.watcher || q.marker != p.marker
    ensures Unique([p] + hot)
  {
    forall j | 0 <= j < |hot|
      ensures hot[j].watcher != p.watcher || hot[j].marker != p.marker
    {
      assert hot[j] in hot;
    }
  }

  lemma NoneChosen(objects: Objects)
    ensures objects == Settled(objects, {})
    ensures forall w, m :: Chosen([], objects, {}, w, m)
  {
  }

  lemma SettledMore(objects: Objects, done: set<U32>, id: U32)
    requires id in objects && id !in done
    ensures id in Settled(objects, done) && Settled(objects, done)[id] == objects[id]
    ensures Settled(objects, done + {id}) == Settled(objects, done)[id := Seen(objects[id])]
  {
  }

  lemma ChosenMore(s: seq<U32>, objects: Objects, done: set<U32>, id: U32, watchers: bool, moved: bool)
    requires Chosen(s, objects, done, watchers, moved) && id in objects && id !in done
    ensures var o := objects[id];
      Chosen(if (if watchers then o.watcher else o.marker) && o.move == moved then s + [id] else s, objects, done + {id}, watchers, moved)
  {
    forall i | 0 <= i < |s|
      ensures s[i] != id
    {
      assert s[i] in s;
    }
  }

  // What an object is after it has been looked at.
  function Seen(o: Object): Object {
    if o.watcher || o.marker then o.(move := false) else o
  }

  ghost function Settled(objects: Objects, done: set<U32>): Objects {
    map id | id in objects :: if id in done then Seen(objects[id]) else objects[id]
  }

  // The watchers, or the markers, among those looked at that have moved, or have not, each once.
  ghost predicate Chosen(s: seq<U32>, objects: Objects, done: set<U32>, watchers: bool, moved: bool) {
    && (forall id <- s :: id in done && id in objects && Is(objects[id], watchers, moved))
    && (forall id <- done :: id in objects && Is(objects[id], watchers, moved) ==> id in s)
    && forall i, j | 0 <= i < j < |s| :: s[i] != s[j]
  }

  predicate Is(o: Object, watchers: bool, moved: bool) {
    (if watchers then o.watcher else o.marker) && o.move == moved
  }

  // The next pair, as it was before.
  lemma StillThere(before: Objects, objects: Objects, hot: seq<Pair>, rest: seq<Pair>, radius2: nat)
    requires AllLinked(before, rest) && Sound(objects, hot) && SameButCounts(before, objects) && rest != [] && rest[0] in hot
    ensures var p := rest[0];
      && p.watcher in objects && p.marker in objects && Now(objects, p) == Now(before, p)
      && (Current(objects, p) <==> Current(before, p))
    ensures var p, more := rest[0], rest[1..];
      && AllLinked(before, more)
      && Kept(before, rest, radius2) == (if Current(before, p) && radius2 <= Now(before, p) <= 4 * radius2 then [p] else []) + Kept(before, more, radius2)
      && Met(before, rest, radius2) == (if Current(before, p) && Now(before, p) < radius2 then [(p.watcher, p.marker)] else []) + Met(before, more, radius2)
  {
    assert Linked(objects, rest[0]) && Linked(before, rest[0]);
  }

  lemma NoPairs(objects: Objects, radius2: nat)
    ensures Kept(objects, [], radius2) == [] && Met(objects, [], radius2) == []
  {
  }

  lemma SoundUnique(objects: Objects, hot: seq<Pair>)
    requires Sound(objects, hot)
    ensures Unique(hot)
  {
  }

  lemma SoundLinks(objects: Objects, hot: seq<Pair>)
    requires Sound(objects, hot)
    ensures AllLinked(objects, hot)
  {
  }

  lemma RightOf(objects: Objects, hot: seq<Pair>, id: U32)
    requires Sound(objects, hot) && id in objects
    ensures Right(objects[id], References(hot, id))
  {
  }

  lemma Appears(objects: Objects, hot: seq<Pair>, id: U32, position: Point)
    requires Sound(objects, hot) && id !in objects
    ensures Sound(objects[id := NewObject(position)], hot)
  {
    NoReference(objects, hot, id);
    Updated(objects, hot, id, NewObject(position));
  }

  lemma Leaves(objects: Objects, hot: seq<Pair>, id: U32)
    requires Sound(objects, hot) && id in objects
    ensures var o := objects[id];
      && (o.drop ==> Left(o) == o && o.ref > 0)
      && Sound(if Left(o).ref <= 0 then objects - {id} else objects[id := Left(o)], hot)
  {
    var o := objects[id];
    assert Right(o, References(hot, id));
    if Left(o).ref <= 0 {
      Freed(objects, hot, id);
    } else {
      Updated(objects, hot, id, Left(o));
    }
  }
}
