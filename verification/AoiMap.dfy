// The table from ids to objects of a space of interest: slots chained like the cells of
// `CrabTable`, where an object that is dropped leaves its slot with the id and without the
// object, and an object that is in the way is put in again elsewhere.

module AoiMap {
  import opened Words
  import C = CrabTable

  // The id of a slot that was never used.
  const INVALID: U32 := 0xFFFF_FFFF
  const PRE_ALLOC: nat := 16

  datatype Pointer<V> = Null | To(obj: V)

  datatype Slot<V> = Slot(id: U32, obj: Pointer<V>, next: int)

  function Blank<V>(): Slot<V> {
    Slot(INVALID, Null, -1)
  }

  // ---- slots as cells of chains ----

  function CellOf<V>(x: Slot<V>): C.Cell {
    C.Cell(x.id, x.next, if x.id == INVALID then C.Empty else C.Inner, null)
  }

  ghost function View<V>(s: seq<Slot<V>>): (r: seq<C.Cell>)
    ensures |r| == |s| && forall i | 0 <= i < |s| :: r[i] == CellOf(s[i])
  {
    seq(|s|, i requires 0 <= i < |s| => CellOf(s[i]))
  }

  // The ids in the slots, those of dropped objects among them.
  ghost function Ids<V>(s: seq<Slot<V>>): set<U32> {
    C.Entries(View(s)).Keys
  }

  // Complete chains, and no object in a slot without an id.
  ghost predicate Sound<V>(s: seq<Slot<V>>, rank: seq<int>) {
    C.Chained(View(s), rank) && forall i | 0 <= i < |s| :: s[i].id == INVALID ==> s[i].obj.Null?
  }

  lemma {:induction false} SoundSize<V>(s: seq<Slot<V>>, rank: seq<int>)
    requires Sound(s, rank)
    ensures |rank| == |s| > 0
  {
    C.EmptyCells(View(s), rank);
  }

  predicate Live<V>(s: seq<Slot<V>>, i: int) {
    0 <= i < |s| && s[i].id != INVALID && s[i].obj.To?
  }

  // ---- the map ----

  ghost function Contents<V>(s: seq<Slot<V>>): map<U32, V> {
    if s == [] then map[] else
      var n := |s| - 1;
      if Live(s, n) then Contents(s[..n])[s[n].id := s[n].obj.obj] else Contents(s[..n])
  }

  ghost predicate DistinctLive<V>(s: seq<Slot<V>>) {
    forall i, j | Live(s, i) && Live(s, j) && i != j :: s[i].id != s[j].id
  }

  lemma {:induction false} SoundDistinct<V>(s: seq<Slot<V>>, rank: seq<int>)
    requires Sound(s, rank)
    ensures DistinctLive(s)
  {
    forall i, j | Live(s, i) && Live(s, j) && i != j
      ensures s[i].id != s[j].id
    {
      C.ChainedAt(View(s), rank, i, j);
    }
  }

  lemma {:induction false} DistinctTake<V>(s: seq<Slot<V>>, n: nat)
    requires DistinctLive(s) && n <= |s|
    ensures DistinctLive(s[..n])
  {
    forall i, j | Live(s[..n], i) && Live(s[..n], j) && i != j
      ensures s[..n][i].id != s[..n][j].id
    {
      assert Live(s, i) && Live(s, j);
    }
  }

  lemma {:induction false} ContentsFrom<V>(s: seq<Slot<V>>, id: U32) returns (i: nat)
    requires id in Contents(s)
    ensures Live(s, i) && s[i].id == id && Contents(s)[id] == s[i].obj.obj
    decreases |s|
  {
    var n := |s| - 1;
    if Live(s, n) && s[n].id == id {
      i := n;
    } else {
      i := ContentsFrom(s[..n], id);
    }
  }

  lemma {:induction false} ContentsOf<V>(s: seq<Slot<V>>, i: nat)
    requires DistinctLive(s) && Live(s, i)
    ensures s[i].id in Contents(s) && Contents(s)[s[i].id] == s[i].obj.obj
    decreases |s|
  {
    var n := |s| - 1;
    if i < n {
      DistinctTake(s, n);
      assert Live(s[..n], i);
      ContentsOf(s[..n], i);
      assert Live(s, n) ==> s[n].id != s[i].id;
    }
  }

  ghost predicate Has<V>(s: seq<Slot<V>>, id: U32, v: V) {
    exists i :: Live(s, i) && s[i].id == id && s[i].obj.obj == v
  }

  // The map is what the slots have.
  lemma {:induction false} ContentsMeans<V>(s: seq<Slot<V>>, id: U32, v: V)
    requires DistinctLive(s)
    ensures Has(s, id, v) <==> id in Contents(s) && Contents(s)[id] == v
  {
    if Has(s, id, v) {
      var i :| Live(s, i) && s[i].id == id && s[i].obj.obj == v;
      ContentsOf(s, i);
    }
    if id in Contents(s) {
      var i := ContentsFrom(s, id);
    }
  }

  lemma {:induction false} ContentsSmall<V>(s: seq<Slot<V>>)
    ensures |Contents(s)| <= |s|
  {
    if s != [] {
      var n := |s| - 1;
      ContentsSmall(s[..n]);
      if Live(s, n) {
        assert Contents(s).Keys == Contents(s[..n]).Keys + {s[n].id};
        assert |Contents(s).Keys| == |Contents(s)| && |Contents(s[..n]).Keys| == |Contents(s[..n])|;
      }
    }
  }

  // A live id is one of the ids.
  lemma {:induction false} LiveId<V>(s: seq<Slot<V>>, rank: seq<int>, id: U32)
    requires Sound(s, rank)
    ensures id in Contents(s) ==> id in Ids(s)
  {
    if id in Contents(s) {
      var i := ContentsFrom(s, id);
      C.ChainedDistinct(View(s), rank);
      C.EntryOf(View(s), i);
    }
  }

  // ---- a slot that is in the way ----

  function CutOut(s: seq<C.Cell>, key: U32, p: nat): seq<C.Cell>
    requires |s| > 0 && p < |s|
  {
    var m := C.Main(key, |s|);
    s[p := s[p].(next := s[m].next)][m := C.Cell(key, -1, C.Inner, null)]
  }

  ghost predicate InTheWay(s: seq<C.Cell>, key: U32, p: nat)
    requires |s| > 0
  {
    var m := C.Main(key, |s|);
    C.Used(s, m) && C.Main(s[m].key, |s|) != m && C.Used(s, p) && s[p].next == m
  }

  lemma {:induction false} CutOutCell(s: seq<C.Cell>, rank: seq<int>, key: U32, p: nat, i: int)
    requires C.Chained(s, rank) && key !in C.Entries(s) && InTheWay(s, key, p) && C.Used(CutOut(s, key, p), i)
    ensures var t, r := CutOut(s, key, p), rank[C.Main(key, |s|) := 0];
      && r[i] <= 0 && C.HeadedBy(t, r, i, C.Main(t[i].key, |t|))
      && (t[i].next != -1 ==> C.Follows(t, r, i, t[i].next))
  {
    hide C.Chained, C.Entries, C.Main;
    var m := C.Main(key, |s|);
    C.ChainedAt(s, rank, p, m);
    C.ChainedAt(s, rank, m, p);
    if i != m {
      C.ChainedAt(s, rank, i, m);
      if s[i].next == m {
        C.OneBefore(s, rank, i, p);
      }
    }
  }

  lemma {:induction false} CutOutPair(s: seq<C.Cell>, rank: seq<int>, key: U32, p: nat, i: int, j: int)
    requires C.Chained(s, rank) && key !in C.Entries(s) && InTheWay(s, key, p) && i != j
    requires C.Used(CutOut(s, key, p), i) && C.Used(CutOut(s, key, p), j)
    ensures C.Apart(CutOut(s, key, p), rank[C.Main(key, |s|) := 0], i, j)
  {
    hide C.Chained, C.Entries, C.Main;
    var m := C.Main(key, |s|);
    C.ChainedAt(s, rank, p, m);
    if i != m {
      C.NoKey(s, rank, key, i);
      C.ChainedAt(s, rank, i, j);
    }
    if j != m {
      C.NoKey(s, rank, key, j);
      C.ChainedAt(s, rank, j, i);
    }
    C.ChainedAt(s, rank, m, if j == m then i else j);
    if i != m && s[i].next == m {
      C.OneBefore(s, rank, i, p);
    }
  }

  // Taking a cell out of its chain, and a key in its place, keeps all chains complete.
  lemma {:induction false} CutOutChained(s: seq<C.Cell>, rank: seq<int>, key: U32, p: nat)
    requires C.Chained(s, rank) && key !in C.Entries(s) && InTheWay(s, key, p)
    ensures C.Chained(CutOut(s, key, p), rank[C.Main(key, |s|) := 0])
  {
    hide C.Chained, C.HeadedBy, C.Follows, C.Apart, C.Entries;
    C.EmptyCells(s, rank);
    var t, r := CutOut(s, key, p), rank[C.Main(key, |s|) := 0];
    forall i | C.Used(t, i)
      ensures r[i] <= 0 && C.HeadedBy(t, r, i, C.Main(t[i].key, |t|))
      ensures t[i].next != -1 ==> C.Follows(t, r, i, t[i].next)
    {
      CutOutCell(s, rank, key, p, i);
    }
    forall i, j | C.Used(t, i) && C.Used(t, j) && i != j
      ensures C.Apart(t, r, i, j)
    {
      CutOutPair(s, rank, key, p, i, j);
    }
    C.ChainedFrom(t, r);
  }

  // The key that was in the way is gone, and the one that came is there.
  lemma {:induction false} CutOutKeys(s: seq<C.Cell>, rank: seq<int>, key: U32, p: nat)
    requires C.Chained(s, rank) && key !in C.Entries(s) && InTheWay(s, key, p)
    ensures var m, t := C.Main(key, |s|), CutOut(s, key, p);
      s[m].key in C.Entries(s) && s[m].key != key && C.Entries(t).Keys == C.Entries(s).Keys - {s[m].key} + {key}
  {
    var m, t, r := C.Main(key, |s|), CutOut(s, key, p), rank[C.Main(key, |s|) := 0];
    CutOutChained(s, rank, key, p);
    C.ChainedDistinct(s, rank);
    C.ChainedDistinct(t, r);
    C.EntryOf(s, m);
    C.EntryOf(t, m);
    forall k | k in C.Entries(t) && k != key
      ensures k in C.Entries(s) && k != s[m].key
    {
      var i := C.EntriesFrom(t, k);
      assert C.Used(s, i) && i != m;
      C.EntryOf(s, i);
    }
    forall k | k in C.Entries(s) && k != s[m].key
      ensures k in C.Entries(t)
    {
      var i := C.EntriesFrom(s, k);
      assert C.Used(t, i);
      C.EntryOf(t, i);
    }
  }

  // ---- the steps of an insertion ----

  function Claim<V>(s: seq<Slot<V>>, id: U32, v: V): seq<Slot<V>>
    requires |s| > 0
  {
    var m := C.Main(id, |s|);
    s[m := s[m].(id := id, obj := To(v))]
  }

  function Link<V>(s: seq<Slot<V>>, id: U32, v: V, f: nat): seq<Slot<V>>
    requires |s| > 0 && f < |s|
  {
    var m := C.Main(id, |s|);
    s[f := Slot(id, To(v), s[m].next)][m := s[m].(next := f)]
  }

  function Evicted<V>(s: seq<Slot<V>>, id: U32, v: V, p: nat): seq<Slot<V>>
    requires |s| > 0 && p < |s|
  {
    var m := C.Main(id, |s|);
    s[p := s[p].(next := s[m].next)][m := Slot(id, To(v), -1)]
  }

  lemma {:induction false} ContentsPut<V>(s: seq<Slot<V>>, t: seq<Slot<V>>, id: U32, v: V, gone: U32)
    requires DistinctLive(s) && DistinctLive(t) && Has(t, id, v) && gone != id
    requires forall k, w | k != id && k != gone :: Has(s, k, w) <==> Has(t, k, w)
    requires forall w :: !Has(t, gone, w)
    ensures Contents(t) == (Contents(s) - {gone})[id := v]
  {
    ContentsMeans(t, id, v);
    forall k | k in Contents(t) && k != id
      ensures k != gone && k in Contents(s) && Contents(s)[k] == Contents(t)[k]
    {
      ContentsMeans(t, k, Contents(t)[k]);
      ContentsMeans(s, k, Contents(t)[k]);
    }
    forall k | k in Contents(s) && k != id && k != gone
      ensures k in Contents(t)
    {
      ContentsMeans(s, k, Contents(s)[k]);
      ContentsMeans(t, k, Contents(s)[k]);
    }
  }

  lemma {:induction false} HasAt<V>(s: seq<Slot<V>>, i: int)
    requires Live(s, i)
    ensures Has(s, s[i].id, s[i].obj.obj)
  {
  }

  lemma {:induction false} NoInvalid<V>(s: seq<Slot<V>>)
    ensures INVALID !in Contents(s) && forall v :: !Has(s, INVALID, v)
  {
    if INVALID in Contents(s) {
      var i := ContentsFrom(s, INVALID);
    }
  }

  lemma {:induction false} ClaimedSound<V>(s: seq<Slot<V>>, rank: seq<int>, id: U32, v: V)
    requires Sound(s, rank) && id != INVALID && id !in Ids(s) && s[C.Main(id, |s|)].id == INVALID
    ensures var m, t := C.Main(id, |s|), Claim(s, id, v);
      Sound(t, rank[m := 0]) && Ids(t) == Ids(s) + {id}
  {
    var m, t, view := C.Main(id, |s|), Claim(s, id, v), View(s);
    assert !C.Used(view, m);
    C.EmptyCells(view, rank);
    C.PlacedFree(view, rank, id);
    C.FreeEntries(view, rank, id);
    assert View(t) == view[m := C.Cell(id, -1, C.Inner, null)];
  }

  // Slots that differ in one only, which was free or had the id that it has now.
  lemma {:induction false} Taken<V>(s: seq<Slot<V>>, t: seq<Slot<V>>, id: U32, v: V, f: nat)
    requires DistinctLive(s) && DistinctLive(t) && |s| == |t| && f < |s|
    requires (s[f].id == INVALID || s[f].id == id) && t[f].id == id != INVALID && t[f].obj == To(v)
    requires forall i | 0 <= i < |s| && i != f :: s[i].id == t[i].id && s[i].obj == t[i].obj
    ensures Contents(t) == Contents(s)[id := v]
  {
    hide Contents;
    NoInvalid(s);
    NoInvalid(t);
    HasAt(t, f);
    forall k, w | k != id
      ensures Has(s, k, w) <==> Has(t, k, w)
    {
      if Has(s, k, w) {
        var i :| Live(s, i) && s[i].id == k && s[i].obj.obj == w;
        HasAt(t, i);
      }
      if Has(t, k, w) {
        var i :| Live(t, i) && t[i].id == k && t[i].obj.obj == w;
        HasAt(s, i);
      }
    }
    ContentsPut(s, t, id, v, INVALID);
  }

  // Into a main position that is free.
  lemma {:induction false} Claimed<V>(s: seq<Slot<V>>, rank: seq<int>, id: U32, v: V)
    requires Sound(s, rank) && |s| > 0 && id != INVALID && id !in Ids(s) && s[C.Main(id, |s|)].id == INVALID
    ensures var m, t := C.Main(id, |s|), Claim(s, id, v);
      |rank| == |s| && Sound(t, rank[m := 0]) && Contents(t) == Contents(s)[id := v] && Ids(t) == Ids(s) + {id}
  {
    var m, t := C.Main(id, |s|), Claim(s, id, v);
    SoundSize(s, rank);
    ClaimedSound(s, rank, id, v);
    SoundDistinct(s, rank);
    SoundDistinct(t, rank[m := 0]);
    Taken(s, t, id, v, m);
  }

  lemma {:induction false} LinkedSound<V>(s: seq<Slot<V>>, rank: seq<int>, id: U32, v: V, f: nat)
    requires Sound(s, rank) && id != INVALID && id !in Ids(s) && f < |s| && s[f].id == INVALID
    requires var m := C.Main(id, |s|); s[m].id != INVALID && C.Main(s[m].id, |s|) == m
    ensures var m, t := C.Main(id, |s|), Link(s, id, v, f);
      Sound(t, C.LinkedRank(rank, m, f)) && Ids(t) == Ids(s) + {id}
  {
    var m, t, view := C.Main(id, |s|), Link(s, id, v, f), View(s);
    assert !C.Used(view, f) && C.Used(view, m);
    C.LinkedBehind(view, rank, id, f);
    C.LinkedEntries(view, rank, id, f);
    assert View(t) == C.Linked(view, id, f);
  }

  // Into a free slot, behind the head of the chain.
  lemma {:induction false} Linked<V>(s: seq<Slot<V>>, rank: seq<int>, id: U32, v: V, f: nat)
    requires Sound(s, rank) && id != INVALID && id !in Ids(s) && f < |s| && s[f].id == INVALID
    requires var m := C.Main(id, |s|); s[m].id != INVALID && C.Main(s[m].id, |s|) == m
    ensures var m, t := C.Main(id, |s|), Link(s, id, v, f);
      |rank| == |s| && Sound(t, C.LinkedRank(rank, m, f)) && Contents(t) == Contents(s)[id := v] && Ids(t) == Ids(s) + {id}
  {
    var m, t := C.Main(id, |s|), Link(s, id, v, f);
    SoundSize(s, rank);
    LinkedSound(s, rank, id, v, f);
    SoundDistinct(s, rank);
    SoundDistinct(t, C.LinkedRank(rank, m, f));
    Taken(s, t, id, v, f);
  }

  lemma {:induction false} EvictedSound<V>(s: seq<Slot<V>>, rank: seq<int>, id: U32, v: V, p: nat)
    requires Sound(s, rank) && |s| > 0 && id != INVALID && id !in Ids(s) && InTheWay(View(s), id, p)
    ensures var m, t := C.Main(id, |s|), Evicted(s, id, v, p);
      && |rank| == |s| && p != m && s[m].id != INVALID && Sound(t, rank[m := 0])
      && s[m].id in Ids(s) && s[m].id != id && Ids(t) == Ids(s) - {s[m].id} + {id}
  {
    var t, view := Evicted(s, id, v, p), View(s);
    CutOutChained(view, rank, id, p);
    CutOutKeys(view, rank, id, p);
    C.ChainedAt(view, rank, p, C.Main(id, |s|));
    assert View(t) == CutOut(view, id, p);
  }

  // In the place of a slot that is in the way, which is gone.
  lemma {:induction false} EvictedGone<V>(s: seq<Slot<V>>, rank: seq<int>, id: U32, v: V, p: nat)
    requires Sound(s, rank) && |s| > 0 && id != INVALID && id !in Ids(s) && InTheWay(View(s), id, p)
    ensures var m, t := C.Main(id, |s|), Evicted(s, id, v, p); Contents(t) == (Contents(s) - {s[m].id})[id := v]
  {
    var m, t := C.Main(id, |s|), Evicted(s, id, v, p);
    EvictedSound(s, rank, id, v, p);
    SoundDistinct(s, rank);
    SoundDistinct(t, rank[m := 0]);
    GoneNow(t, rank[m := 0], s[m].id);
    TakenOver(s, t, id, v, m);
  }

  lemma {:induction false} TakenOver<V>(s: seq<Slot<V>>, t: seq<Slot<V>>, id: U32, v: V, m: nat)
    requires DistinctLive(s) && DistinctLive(t) && |s| == |t| && m < |s|
    requires t[m].id == id != INVALID && t[m].obj == To(v) && s[m].id != id
    requires forall i | 0 <= i < |s| && i != m :: s[i].id == t[i].id && s[i].obj == t[i].obj
    requires forall w :: !Has(t, s[m].id, w)
    ensures Contents(t) == (Contents(s) - {s[m].id})[id := v]
  {
    hide Contents;
    HasAt(t, m);
    forall k, w | k != id && k != s[m].id
      ensures Has(s, k, w) <==> Has(t, k, w)
    {
      if Has(s, k, w) {
        var i :| Live(s, i) && s[i].id == k && s[i].obj.obj == w;
        HasAt(t, i);
      }
      if Has(t, k, w) {
        var i :| Live(t, i) && t[i].id == k && t[i].obj.obj == w;
        HasAt(s, i);
      }
    }
    ContentsPut(s, t, id, v, s[m].id);
  }

  lemma {:induction false} GoneNow<V>(t: seq<Slot<V>>, rank: seq<int>, gone: U32)
    requires Sound(t, rank) && gone !in Ids(t)
    ensures forall w :: !Has(t, gone, w)
  {
    forall w
      ensures !Has(t, gone, w)
    {
      SoundDistinct(t, rank);
      LiveId(t, rank, gone);
      ContentsMeans(t, gone, w);
    }
  }

  // ---- a slot whose object comes or goes ----

  lemma {:induction false} Stored<V>(s: seq<Slot<V>>, rank: seq<int>, n: nat, v: V)
    requires Sound(s, rank) && n < |s| && s[n].id != INVALID
    ensures var t := s[n := s[n].(obj := To(v))];
      Sound(t, rank) && Ids(t) == Ids(s) && Contents(t) == Contents(s)[s[n].id := v]
  {
    var t := s[n := s[n].(obj := To(v))];
    assert View(t) == View(s);
    SoundDistinct(s, rank);
    SoundDistinct(t, rank);
    Taken(s, t, s[n].id, v, n);
  }

  lemma {:induction false} Emptied<V>(s: seq<Slot<V>>, rank: seq<int>, n: nat)
    requires Sound(s, rank) && n < |s|
    ensures var t := s[n := s[n].(obj := Null)];
      Sound(t, rank) && Ids(t) == Ids(s) && Contents(t) == Contents(s) - {s[n].id}
  {
    var t := s[n := s[n].(obj := Null)];
    assert View(t) == View(s);
    SoundDistinct(s, rank);
    SoundDistinct(t, rank);
    NoInvalid(s);
    forall k | k in Contents(t)
      ensures k != s[n].id && k in Contents(s) && Contents(s)[k] == Contents(t)[k]
    {
      var i := ContentsFrom(t, k);
      assert Live(s, i);
      ContentsOf(s, i);
      assert Live(s, n) ==> s[n].id != s[i].id;
      if s[n].id == k {
        C.ChainedAt(View(s), rank, i, n);
      }
    }
    forall k | k in Contents(s) && k != s[n].id
      ensures k in Contents(t)
    {
      var i := ContentsFrom(s, k);
      assert Live(t, i);
      ContentsOf(t, i);
    }
  }

  // No chain has a free slot, and nothing is in one.
  lemma {:induction false} BlankSound<V>(s: seq<Slot<V>>, rank: seq<int>)
    requires |rank| == |s| > 0 && forall i | 0 <= i < |s| :: s[i] == Blank()
    ensures Sound(s, rank) && Contents(s) == map[] && Ids(s) == {} && !C.AllUsed(View(s))
  {
    hide Sound, Contents, Ids;
    BlankChained(s, rank);
    BlankContents(s);
    BlankIds(s);
  }

  lemma {:induction false} BlankChained<V>(s: seq<Slot<V>>, rank: seq<int>)
    requires |rank| == |s| > 0 && forall i | 0 <= i < |s| :: s[i] == Blank()
    ensures Sound(s, rank) && !C.AllUsed(View(s))
  {
    assert !C.Used(View(s), 0);
  }

  lemma {:induction false} BlankContents<V>(s: seq<Slot<V>>)
    requires forall i | 0 <= i < |s| :: s[i] == Blank()
    ensures Contents(s) == map[]
  {
    if s != [] {
      BlankContents(s[..|s| - 1]);
    }
  }

  lemma {:induction false} BlankIds<V>(s: seq<Slot<V>>)
    requires forall i | 0 <= i < |s| :: s[i] == Blank()
    ensures Ids(s) == {}
  {
    if Ids(s) != {} {
      var k :| k in Ids(s);
      var i := C.EntriesFrom(View(s), k);
    }
  }

  // The id of no slot: on a fresh table it takes the last slot, which still looks free, so that
  // id 15 takes it as well and the object is lost.
  lemma {:induction false} InvalidLost<V>(v: V, w: V)
    requires v != w
    ensures var s: seq<Slot<V>> := seq(PRE_ALLOC, _ => Blank());
      var t := Claim(s, INVALID, v);
      var u := Claim(t, 15, w);
      && C.Main(INVALID, PRE_ALLOC) == C.Main(15, PRE_ALLOC) == 15 && t[15].obj == To(v) && t[15].id == INVALID
      && forall i | 0 <= i < PRE_ALLOC :: u[i].obj != To(v)
  {
  }

  // Any other id is kept by the table, and this one never.
  lemma {:induction false} InvalidOnly<V>(s: seq<Slot<V>>, rank: seq<int>, id: U32, v: V)
    requires Sound(s, rank) && |s| > 0 && id !in Ids(s) && s[C.Main(id, |s|)].id == INVALID
    ensures (exists r :: Sound(Claim(s, id, v), r)) <==> id != INVALID
  {
    var m, t := C.Main(id, |s|), Claim(s, id, v);
    SoundSize(s, rank);
    if id == INVALID {
      assert t[m].id == INVALID && t[m].obj.To?;
    } else {
      ClaimedSound(s, rank, id, v);
      assert Sound(t, rank[m := 0]);
    }
  }

  // Where an insertion finds a slot in the way.
  ghost predicate Foreign<V>(s: seq<Slot<V>>, id: U32) {
    |s| > 0 && var m := C.Main(id, |s|); s[m].id != INVALID && C.Main(s[m].id, |s|) != m
  }

  class SlotMap<V> {
    var slot: array<Slot<V>>
    var lastfree: int
    ghost var rank: seq<int>

    // No slot above `lastfree` is free.
    ghost predicate Valid()
      reads this, slot
    {
      && C.PowerOfTwo(slot.Length) && Sound(slot[..], rank)
      && -1 <= lastfree < slot.Length && forall i | lastfree < i < slot.Length :: slot[i].id != INVALID
    }

    constructor ()
      ensures Valid() && Contents(slot[..]) == map[] && fresh(slot)
    {
      slot := new Slot<V>[PRE_ALLOC](_ => Blank());
      lastfree := PRE_ALLOC - 1;
      rank := seq(PRE_ALLOC, _ => 0);
      new;
      BlankSound(slot[..], rank);
    }

    // The next free slot from the end; the search goes on below it.
    method FreeSlot() returns (f: int)
      requires Valid()
      modifies this`lastfree
      ensures -1 <= f < slot.Length && lastfree == (if f < 0 then -1 else f - 1)
      ensures f >= 0 ==> slot[f].id == INVALID
      ensures forall i | f < i < slot.Length :: slot[i].id != INVALID
    {
      hide Sound, C.PowerOfTwo;
      f := -1;
      while lastfree >= 0
        invariant -1 <= lastfree < slot.Length && f == -1
        invariant forall i | lastfree < i < slot.Length :: slot[i].id != INVALID
        decreases lastfree
      {
        f := lastfree;
        lastfree := lastfree - 1;
        if slot[f].id == INVALID {
          return;
        }
        f := -1;
      }
    }

    // The slot whose next is at `m`.
    method Before(m: nat) returns (o: nat)
      requires Valid() && m < slot.Length && slot[m].id != INVALID && C.Main(slot[m].id, slot.Length) != m
      ensures o < slot.Length && o != m && slot[o].id != INVALID && slot[o].next == m
    {
      hide Ids, C.Chained, C.Main, C.PowerOfTwo;
      ghost var view := View(slot[..]);
      assert C.Used(view, m);
      C.ChainedAt(view, rank, m, m);
      o := C.Main(slot[m].id, slot.Length);
      C.ChainedAt(view, rank, o, m);
      C.TowardsNext(view, rank, o, m);
      while slot[o].next != m
        invariant C.Used(view, o) && C.Same(view, o, m) && rank[o] < rank[m]
        decreases rank[m] - rank[o]
      {
        C.TowardsNext(view, rank, o, m);
        o := slot[o].next;
      }
    }

    // The slot with an id; its object may have been dropped.
    method Find(id: U32) returns (n: int)
      requires Valid()
      ensures -1 <= n < slot.Length
      ensures n < 0 ==> id !in Ids(slot[..])
      ensures n >= 0 ==> slot[n].id == id
    {
      hide Ids, C.Chained, C.Main, C.PowerOfTwo;
      ghost var view := View(slot[..]);
      FirstOf(slot[..], rank, id);
      n := C.Main(id, slot.Length);
      while true
        invariant 0 <= n < slot.Length && C.Ahead(view, rank, id, n) && (C.Used(view, n) ==> rank[n] <= 0)
        decreases if C.Used(view, n) then 1 - rank[n] else 0
      {
        if slot[n].id == id {
          return;
        }
        NextOrNone(slot[..], rank, id, n);
        if slot[n].next < 0 {
          return -1;
        }
        n := slot[n].next;
      }
    }

    // Takes the place of the slot in the way, which is cut out of its chain.
    method Evict(id: U32, obj: V) returns (was: Slot<V>)
      requires Valid() && id != INVALID && id !in Ids(slot[..]) && Foreign(slot[..], id)
      modifies this`rank, slot
      ensures Valid() && was.id != INVALID && was.id != id && !Foreign(slot[..], was.id)
      ensures C.AllUsed(View(slot[..])) <==> old(C.AllUsed(View(slot[..])))
      ensures Contents(slot[..]) == (old(Contents(slot[..])) - {was.id})[id := obj]
      ensures Ids(slot[..]) == old(Ids(slot[..])) - {was.id} + {id} && was.id in old(Ids(slot[..]))
      ensures var c := old(Contents(slot[..])); if was.obj.To? then was.id in c && c[was.id] == was.obj.obj else was.id !in c
    {
      hide Ids, Contents, Sound, C.Main, C.PowerOfTwo, InTheWay, C.AllUsed;
      ghost var s, r := slot[..], rank;
      SoundSize(s, r);
      var m := C.Main(id, slot.Length);
      var last := Before(m);
      ghost var t := Evicted(s, id, obj, last);
      WayFound(s, r, id, last);
      EvictedSound(s, r, id, obj, last);
      EvictedGone(s, r, id, obj, last);
      EvictedMore(s, r, id, obj, last);
      was := slot[m];
      slot[last] := slot[last].(next := slot[m].next);
      slot[m] := Slot(id, To(obj), -1);
      rank := rank[m := 0];
      assert slot[..] == t;
    }

    // A new id.
    method Insert(id: U32, obj: V)
      requires Valid() && id != INVALID && id !in Ids(slot[..])
      modifies this, slot
      ensures Valid() && (slot == old(slot) || fresh(slot))
      ensures !old(C.AllUsed(View(slot[..]))) ==> slot == old(slot)
      ensures Contents(slot[..]) == old(Contents(slot[..]))[id := obj]
      ensures Ids(slot[..]) <= old(Ids(slot[..])) + {id}
      decreases if C.AllUsed(View(slot[..])) then 1 else 0, if Foreign(slot[..], id) then 3 else 2
    {
      hide Ids, Contents, Sound, C.Main, C.PowerOfTwo, InTheWay, C.AllUsed;
      ghost var s, r := slot[..], rank;
      SoundSize(s, r);
      var m := C.Main(id, slot.Length);
      if slot[m].id == INVALID {
        Claimed(s, r, id, obj);
        slot[m] := slot[m].(id := id, obj := To(obj));
        rank := rank[m := 0];
        assert slot[..] == Claim(s, id, obj);
        return;
      }
      if C.Main(slot[m].id, slot.Length) != m {
        var was := Evict(id, obj);
        PutBack(Contents(s), was.id, id, obj);
        if was.obj.To? {
          Insert(was.id, was.obj.obj);
        }
        return;
      }
      var f := FreeSlot();
      if f < 0 {
        FullTable(s);
        Rehash();
        Insert(id, obj);
        return;
      }
      Linked(s, r, id, obj, f);
      slot[f] := Slot(id, To(obj), slot[m].next);
      slot[m] := slot[m].(next := f);
      rank := C.LinkedRank(rank, m, f);
      assert slot[..] == Link(s, id, obj, f);
    }

    // Doubles the table and enters every object again.
    method Rehash()
      requires Valid()
      modifies this
      ensures Valid() && fresh(slot) && !C.AllUsed(View(slot[..]))
      ensures Contents(slot[..]) == old(Contents(slot[..])) && Ids(slot[..]) <= old(Ids(slot[..]))
      decreases 1, 1
    {
      hide Ids, Contents, Sound, C.Main, C.PowerOfTwo, InTheWay, C.AllUsed;
      var before := slot;
      ghost var s, r := slot[..], rank;
      SoundSize(s, r);
      C.Doubled(before.Length);
      slot := new Slot<V>[2 * before.Length](_ => Blank());
      lastfree := slot.Length - 1;
      rank := seq(slot.Length, _ => 0);
      BlankSound(slot[..], rank);
      assert s[..0] == [];
      ContentsEmpty<V>();
      var i := 0;
      while i < before.Length
        invariant 0 <= i <= before.Length && Valid() && fresh(slot) && slot.Length == 2 * before.Length
        invariant before[..] == s && Contents(slot[..]) == Contents(s[..i]) && Ids(slot[..]) == Contents(s[..i]).Keys
      {
        ContentsNext(s, r, i);
        if before[i].obj.To? {
          Room(slot[..], rank, s[..i]);
          Insert(before[i].id, before[i].obj.obj);
          LiveIds(slot[..], rank);
        }
        i := i + 1;
      }
      assert s[..i] == s;
      Room(slot[..], rank, s);
      LiveIds(s, r);
    }

    // The object of an id: `fresh` if it has none.
    method Query(id: U32, fresh': V) returns (obj: V)
      requires Valid() && id != INVALID
      modifies this, slot
      ensures Valid() && (slot == old(slot) || fresh(slot))
      ensures var c := old(Contents(slot[..]));
        && Contents(slot[..]) == (if id in c then c else c[id := fresh'])
        && obj == (if id in c then c[id] else fresh')
    {
      hide Ids, Contents, Sound, C.PowerOfTwo;
      ghost var s, r := slot[..], rank;
      var n := Find(id);
      if n < 0 {
        LiveId(s, r, id);
        Insert(id, fresh');
        return fresh';
      }
      FoundAt(s, r, n);
      if slot[n].obj.Null? {
        Stored(s, r, n, fresh');
        slot[n] := slot[n].(obj := To(fresh'));
        assert slot[..] == s[n := s[n].(obj := To(fresh'))];
      }
      obj := slot[n].obj.obj;
    }

    method Drop(id: U32) returns (obj: Pointer<V>)
      requires Valid()
      modifies slot
      ensures Valid() && Contents(slot[..]) == old(Contents(slot[..])) - {id}
      ensures var c := old(Contents(slot[..])); obj == if id in c then To(c[id]) else Null
    {
      hide Ids, Contents, Sound, C.PowerOfTwo;
      ghost var s, r := slot[..], rank;
      var n := Find(id);
      LiveId(s, r, id);
      if n < 0 {
        return Null;
      }
      FoundAt(s, r, n);
      Emptied(s, r, n);
      obj := slot[n].obj;
      slot[n] := slot[n].(obj := Null);
      assert slot[..] == s[n := s[n].(obj := Null)];
    }
  }

  lemma {:induction false} FirstOf<V>(s: seq<Slot<V>>, rank: seq<int>, id: U32)
    requires Sound(s, rank)
    ensures |rank| == |s| > 0
    ensures var view, n := View(s), C.Main(id, |s|); C.Ahead(view, rank, id, n) && (C.Used(view, n) ==> rank[n] <= 0)
  {
    var view, n := View(s), C.Main(id, |s|);
    SoundSize(s, rank);
    C.AheadFirst(view, rank, id);
    if C.Used(view, n) {
      C.ChainedAt(view, rank, n, n);
    }
  }

  lemma PutBack<V>(c: map<U32, V>, gone: U32, id: U32, v: V)
    requires gone != id
    ensures gone in c ==> (c - {gone})[id := v][gone := c[gone]] == c[id := v]
    ensures gone !in c ==> c - {gone} == c
  {
  }

  lemma {:induction false} NextOrNone<V>(s: seq<Slot<V>>, rank: seq<int>, id: U32, n: nat)
    requires Sound(s, rank) && n < |s| && |rank| == |s| && C.Ahead(View(s), rank, id, n) && s[n].id != id
    ensures s[n].next < 0 ==> id !in Ids(s)
    ensures s[n].next >= 0 ==> var q := s[n].next;
      C.Used(View(s), n) && C.Used(View(s), q) && C.Ahead(View(s), rank, id, q) && rank[n] < rank[q] <= 0
  {
    if s[n].id == INVALID {
      C.EmptyCells(View(s), rank);
      C.AheadNone(View(s), rank, id, n);
    } else {
      C.AheadNext(View(s), rank, id, n);
    }
  }

  lemma {:induction false} WayFound<V>(s: seq<Slot<V>>, rank: seq<int>, id: U32, p: nat)
    requires Sound(s, rank) && p < |s| && Foreign(s, id) && s[p].id != INVALID && s[p].next == C.Main(id, |s|)
    ensures InTheWay(View(s), id, p)
  {
  }

  // The id that was in the way finds its main position with the start of its chain.
  lemma {:induction false} EvictedMore<V>(s: seq<Slot<V>>, rank: seq<int>, id: U32, v: V, p: nat)
    requires Sound(s, rank) && |s| > 0 && id != INVALID && id !in Ids(s) && InTheWay(View(s), id, p)
    ensures var m, t := C.Main(id, |s|), Evicted(s, id, v, p);
      && !Foreign(t, s[m].id) && (C.AllUsed(View(t)) <==> C.AllUsed(View(s)))
      && (s[m].obj.Null? ==> s[m].id !in Contents(s))
      && (s[m].obj.To? ==> s[m].id in Contents(s) && Contents(s)[s[m].id] == s[m].obj.obj)
  {
    hide Contents;
    var m, t := C.Main(id, |s|), Evicted(s, id, v, p);
    C.ChainedAt(View(s), rank, m, p);
    FoundAt(s, rank, m);
    forall i | 0 <= i < |s|
      ensures C.Used(View(t), i) <==> C.Used(View(s), i)
    {
    }
  }

  // What a slot with an id says of the map.
  lemma {:induction false} FoundAt<V>(s: seq<Slot<V>>, rank: seq<int>, n: nat)
    requires Sound(s, rank) && n < |s|
    ensures s[n].obj.To? <==> s[n].id in Contents(s)
    ensures s[n].obj.To? ==> Contents(s)[s[n].id] == s[n].obj.obj
  {
    SoundDistinct(s, rank);
    if s[n].obj.To? {
      ContentsOf(s, n);
    } else if s[n].id in Contents(s) {
      var i := ContentsFrom(s, s[n].id);
      C.ChainedAt(View(s), rank, i, n);
    }
  }

  lemma {:induction false} FullTable<V>(s: seq<Slot<V>>)
    requires forall i | 0 <= i < |s| :: s[i].id != INVALID
    ensures C.AllUsed(View(s))
  {
  }

  lemma {:induction false} ContentsEmpty<V>()
    ensures Contents<V>([]) == map[]
  {
  }

  lemma {:induction false} ContentsNext<V>(s: seq<Slot<V>>, rank: seq<int>, i: nat)
    requires Sound(s, rank) && i < |s|
    ensures var c := Contents(s[..i]);
      Contents(s[..i + 1]) == if s[i].obj.Null? then c else c[s[i].id := s[i].obj.obj]
    ensures s[i].obj.To? ==> s[i].id != INVALID && s[i].id !in Contents(s[..i])
  {
    SoundDistinct(s, rank);
    assert s[..i + 1][..i] == s[..i];
    if s[i].obj.To? && s[i].id in Contents(s[..i]) {
      var j := ContentsFrom(s[..i], s[i].id);
      assert Live(s, j) && Live(s, i);
    }
  }

  // A table twice as long is not full.
  lemma {:induction false} Room<V>(t: seq<Slot<V>>, rank: seq<int>, s: seq<Slot<V>>)
    requires Sound(t, rank) && Ids(t) == Contents(s).Keys && |s| < |t|
    ensures !C.AllUsed(View(t))
  {
    ContentsSmall(s);
    C.ChainedDistinct(View(t), rank);
    C.EntriesCount(View(t));
    assert |Contents(s).Keys| == |Contents(s)| && |C.Entries(View(t)).Keys| == |C.Entries(View(t))|;
  }

  lemma {:induction false} LiveIds<V>(s: seq<Slot<V>>, rank: seq<int>)
    requires Sound(s, rank)
    ensures Contents(s).Keys <= Ids(s)
  {
    forall id | id in Contents(s)
      ensures id in Ids(s)
    {
      LiveId(s, rank, id);
    }
  }
}
