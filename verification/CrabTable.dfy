// A hash table whose collisions are chained through its own free cells. A cell that is not in
// its main position is moved out of the way when a key with that main position arrives, so
// that every chain starts in the main position of its keys.

module CrabTable {
  import opened Words

  datatype Flag = Empty | Inner | Terminal

  datatype Cell = Cell(key: U32, next: int, flag: Flag, value: Table?)

  datatype Entry = Entry(flag: Flag, value: Table?)

  function Nothing(): Cell {
    Cell(0, -1, Empty, null)
  }

  function Main(key: U32, capacity: int): nat
    requires capacity > 0
    ensures Main(key, capacity) < capacity
  {
    key % capacity
  }

  predicate Used(s: seq<Cell>, i: int) {
    0 <= i < |s| && s[i].flag != Empty
  }

  predicate Same(s: seq<Cell>, i: int, j: int)
    requires 0 <= i < |s| && 0 <= j < |s|
  {
    Main(s[i].key, |s|) == Main(s[j].key, |s|)
  }

  // Every chain starts in its main position and goes through all the cells with that main
  // position in the order of their ranks.
  ghost predicate Chained(s: seq<Cell>, rank: seq<int>) {
    && |rank| == |s| > 0
    && (forall i | 0 <= i < |s| :: s[i].flag == Empty ==> s[i].next == -1 && s[i].value == null)
    && (forall i | 0 <= i < |s| :: Used(s, i) ==> rank[i] <= 0 && HeadedBy(s, rank, i, Main(s[i].key, |s|)))
    && (forall i | 0 <= i < |s| :: Used(s, i) && s[i].next != -1 ==> Follows(s, rank, i, s[i].next))
    && (forall i, j | 0 <= i < |s| && 0 <= j < |s| :: Used(s, i) && Used(s, j) && i != j ==> Apart(s, rank, i, j))
  }

  ghost predicate HeadedBy(s: seq<Cell>, rank: seq<int>, i: int, m: int)
    requires |rank| == |s| && 0 <= i < |s|
  {
    Used(s, m) && Same(s, m, i) && rank[m] <= rank[i]
  }

  ghost predicate Follows(s: seq<Cell>, rank: seq<int>, i: int, n: int)
    requires |rank| == |s| && 0 <= i < |s|
  {
    Used(s, n) && Same(s, i, n) && rank[i] < rank[n]
  }

  // Different keys; on the same chain, the one of lower rank leads to the other.
  ghost predicate Apart(s: seq<Cell>, rank: seq<int>, i: int, j: int)
    requires |rank| == |s| && 0 <= i < |s| && 0 <= j < |s|
  {
    && s[i].key != s[j].key
    && (Same(s, i, j) ==> rank[i] != rank[j])
    && (Same(s, i, j) && rank[i] < rank[j] ==> 0 <= s[i].next < |s| && rank[s[i].next] <= rank[j])
  }

  predicate PowerOfTwo(n: nat) {
    n == 1 || (n > 0 && n % 2 == 0 && PowerOfTwo(n / 2))
  }

  ghost predicate AllUsed(s: seq<Cell>) {
    forall i | 0 <= i < |s| :: Used(s, i)
  }

  // ---- what the cells hold ----

  ghost function Entries(s: seq<Cell>): map<U32, Entry> {
    if s == [] then map[] else
      var n := |s| - 1;
      if s[n].flag == Empty then Entries(s[..n]) else Entries(s[..n])[s[n].key := Entry(s[n].flag, s[n].value)]
  }

  ghost predicate Distinct(s: seq<Cell>) {
    forall i, j | 0 <= i < |s| && 0 <= j < |s| :: Used(s, i) && Used(s, j) && i != j ==> s[i].key != s[j].key
  }

  lemma ChainedDistinct(s: seq<Cell>, rank: seq<int>)
    requires Chained(s, rank)
    ensures Distinct(s)
  {
    forall i, j | 0 <= i < |s| && 0 <= j < |s|
      ensures Used(s, i) && Used(s, j) && i != j ==> s[i].key != s[j].key
    {
      if Used(s, i) && Used(s, j) && i != j {
        assert Apart(s, rank, i, j);
      }
    }
  }

  lemma DistinctTake(s: seq<Cell>, n: nat)
    requires Distinct(s) && n <= |s|
    ensures Distinct(s[..n])
  {
    forall i, j | 0 <= i < n && 0 <= j < n
      ensures Used(s[..n], i) && Used(s[..n], j) && i != j ==> s[..n][i].key != s[..n][j].key
    {
      assert Used(s[..n], i) ==> Used(s, i);
      assert Used(s[..n], j) ==> Used(s, j);
    }
  }

  lemma {:induction false} EntriesFrom(s: seq<Cell>, k: U32) returns (i: nat)
    requires k in Entries(s)
    ensures Used(s, i) && s[i].key == k && Entries(s)[k] == Entry(s[i].flag, s[i].value)
    decreases |s|
  {
    var n := |s| - 1;
    if s[n].flag != Empty && s[n].key == k {
      i := n;
    } else {
      i := EntriesFrom(s[..n], k);
    }
  }

  lemma {:induction false} EntryOf(s: seq<Cell>, i: nat)
    requires Distinct(s) && Used(s, i)
    ensures s[i].key in Entries(s) && Entries(s)[s[i].key] == Entry(s[i].flag, s[i].value)
    decreases |s|
  {
    var n := |s| - 1;
    if i < n {
      DistinctTake(s, n);
      assert Used(s[..n], i);
      EntryOf(s[..n], i);
      assert Used(s, n) ==> s[n].key != s[i].key;
    }
  }

  // The cells other than `i`, where `k` is now.
  lemma EntriesChanged(s: seq<Cell>, t: seq<Cell>, k: U32, e: Entry)
    requires Distinct(s) && Distinct(t)
    requires forall i | Used(s, i) && s[i].key != k :: Kept(s[i], t)
    requires forall i | Used(t, i) && t[i].key != k :: Kept(t[i], s)
    requires exists i :: Used(t, i) && t[i].key == k && t[i].flag == e.flag && t[i].value == e.value
    ensures Entries(t) == Entries(s)[k := e]
  {
    var i :| Used(t, i) && t[i].key == k && t[i].flag == e.flag && t[i].value == e.value;
    EntryOf(t, i);
    forall q | q in Entries(t) && q != k
      ensures q in Entries(s) && Entries(s)[q] == Entries(t)[q]
    {
      var j := EntriesFrom(t, q);
      KeptEntry(t[j], s);
    }
    forall q | q in Entries(s) && q != k
      ensures q in Entries(t)
    {
      var j := EntriesFrom(s, q);
      KeptEntry(s[j], t);
    }
  }

  ghost predicate Kept(c: Cell, t: seq<Cell>) {
    exists i :: Used(t, i) && t[i].key == c.key && t[i].flag == c.flag && t[i].value == c.value
  }

  lemma KeptEntry(c: Cell, t: seq<Cell>)
    requires Kept(c, t) && Distinct(t)
    ensures c.key in Entries(t) && Entries(t)[c.key] == Entry(c.flag, c.value)
  {
    var i :| Used(t, i) && t[i].key == c.key && t[i].flag == c.flag && t[i].value == c.value;
    EntryOf(t, i);
  }

  lemma {:induction false} EntriesCount(s: seq<Cell>)
    ensures |Entries(s)| <= |s|
    ensures Distinct(s) && AllUsed(s) ==> |Entries(s)| == |s|
  {
    if s != [] {
      var n := |s| - 1;
      EntriesCount(s[..n]);
      var m := Entries(s[..n]);
      if s[n].flag != Empty {
        assert Entries(s).Keys == m.Keys + {s[n].key};
        assert |Entries(s).Keys| == |Entries(s)| && |m.Keys| == |m|;
      }
      if Distinct(s) && AllUsed(s) {
        assert Used(s, n);
        AllBefore(s, n);
        if s[n].key in m {
          EntryAbove(s, n);
        }
      }
    }
  }

  lemma EntryAbove(s: seq<Cell>, n: nat)
    requires n < |s| && Used(s, n) && s[n].key in Entries(s[..n])
    ensures !Distinct(s)
  {
    var i := EntriesFrom(s[..n], s[n].key);
    assert Used(s, i);
  }

  lemma AllBefore(s: seq<Cell>, n: nat)
    requires Distinct(s) && AllUsed(s) && n <= |s|
    ensures Distinct(s[..n]) && AllUsed(s[..n])
  {
    DistinctTake(s, n);
    forall i | 0 <= i < n
      ensures Used(s[..n], i)
    {
      assert Used(s, i);
    }
  }

  // ---- the three ways a key comes in ----

  // Its main position is free.
  lemma PlacedFree(s: seq<Cell>, rank: seq<int>, key: U32)
    requires Chained(s, rank) && key !in Entries(s)
    requires !Used(s, Main(key, |s|))
    ensures var m := Main(key, |s|);
      Chained(s[m := Cell(key, -1, Inner, null)], rank[m := 0])
  {
    hide Chained, HeadedBy, Follows, Apart, Entries;
    EmptyCells(s, rank);
    var m := Main(key, |s|);
    var t, r := s[m := Cell(key, -1, Inner, null)], rank[m := 0];
    forall i | Used(t, i)
      ensures r[i] <= 0 && HeadedBy(t, r, i, Main(t[i].key, |t|))
      ensures t[i].next != -1 ==> Follows(t, r, i, t[i].next)
    {
      PlacedPair(s, rank, key, i, i);
    }
    forall i, j | Used(t, i) && Used(t, j) && i != j
      ensures Apart(t, r, i, j)
    {
      PlacedPair(s, rank, key, i, j);
    }
    ChainedFrom(t, r);
  }

  lemma PlacedPair(s: seq<Cell>, rank: seq<int>, key: U32, i: int, j: int)
    requires Chained(s, rank) && key !in Entries(s)
    requires var m := Main(key, |s|);
      !Used(s, m) && Used(s[m := Cell(key, -1, Inner, null)], i) && Used(s[m := Cell(key, -1, Inner, null)], j)
    ensures var m := Main(key, |s|);
      var t, r := s[m := Cell(key, -1, Inner, null)], rank[m := 0];
      && r[i] <= 0 && HeadedBy(t, r, i, Main(t[i].key, |t|))
      && (t[i].next != -1 ==> Follows(t, r, i, t[i].next))
      && (i != j ==> Apart(t, r, i, j))
  {
    hide Chained, Entries, Main;
    EmptyCells(s, rank);
    var m := Main(key, |s|);
    if i != m {
      NoKey(s, rank, key, i);
      ChainedAt(s, rank, i, if j == m then i else j);
    }
    if j != m {
      NoKey(s, rank, key, j);
      ChainedAt(s, rank, j, j);
    }
  }

  lemma NoKey(s: seq<Cell>, rank: seq<int>, key: U32, i: int)
    requires Chained(s, rank) && key !in Entries(s) && Used(s, i)
    ensures s[i].key != key
  {
    ChainedDistinct(s, rank);
    EntryOf(s, i);
  }

  lemma ChainedFrom(s: seq<Cell>, rank: seq<int>)
    requires |rank| == |s| > 0
    requires forall i | 0 <= i < |s| && !Used(s, i) :: s[i].next == -1 && s[i].value == null
    requires forall i | Used(s, i) :: rank[i] <= 0 && HeadedBy(s, rank, i, Main(s[i].key, |s|)) && (s[i].next != -1 ==> Follows(s, rank, i, s[i].next))
    requires forall i, j | Used(s, i) && Used(s, j) && i != j :: Apart(s, rank, i, j)
    ensures Chained(s, rank)
  {
  }

  lemma EmptyCells(s: seq<Cell>, rank: seq<int>)
    requires Chained(s, rank)
    ensures |rank| == |s| > 0 && forall i | 0 <= i < |s| && !Used(s, i) :: s[i].next == -1 && s[i].value == null
  {
  }

  // What holds of a used cell, of its next, and of two used cells.
  lemma ChainedAt(s: seq<Cell>, rank: seq<int>, i: int, j: int)
    requires Chained(s, rank) && Used(s, i) && Used(s, j)
    ensures |rank| == |s| && rank[i] <= 0 && HeadedBy(s, rank, i, Main(s[i].key, |s|))
    ensures s[i].next != -1 ==> Follows(s, rank, i, s[i].next)
    ensures i != j ==> Apart(s, rank, i, j)
  {
  }

  // A cell follows at most one other, and none if it starts a chain.
  lemma OneBefore(s: seq<Cell>, rank: seq<int>, i: int, p: int)
    requires Chained(s, rank) && Used(s, i) && Used(s, p) && s[i].next == s[p].next != -1
    ensures i == p
  {
    if i != p {
      ChainedAt(s, rank, i, p);
      ChainedAt(s, rank, p, i);
    }
  }

  lemma NoneBefore(s: seq<Cell>, rank: seq<int>, i: int, m: int)
    requires Chained(s, rank) && Used(s, i) && Used(s, m) && Main(s[m].key, |s|) == m
    ensures s[i].next != m
  {
    ChainedAt(s, rank, i, m);
  }

  function Linked(s: seq<Cell>, key: U32, n: nat): seq<Cell>
    requires |s| > 0 && n < |s|
  {
    var m := Main(key, |s|);
    s[n := Cell(key, s[m].next, Inner, null)][m := s[m].(next := n)]
  }

  ghost function LinkedRank(rank: seq<int>, m: nat, n: nat): seq<int>
    requires m < |rank| && n < |rank|
  {
    rank[n := rank[m]][m := rank[m] - 1]
  }

  lemma LinkedCell(s: seq<Cell>, rank: seq<int>, key: U32, n: nat, i: int)
    requires Chained(s, rank) && key !in Entries(s)
    requires var m := Main(key, |s|); Used(s, m) && Main(s[m].key, |s|) == m
    requires n < |s| && !Used(s, n) && Used(Linked(s, key, n), i)
    ensures var t, r := Linked(s, key, n), LinkedRank(rank, Main(key, |s|), n);
      && r[i] <= 0 && HeadedBy(t, r, i, Main(t[i].key, |t|))
      && (t[i].next != -1 ==> Follows(t, r, i, t[i].next))
  {
    hide Chained, Entries, Main;
    var m := Main(key, |s|);
    var i' := if i == n then m else i;
    ChainedAt(s, rank, i', m);
    NoneBefore(s, rank, i', m);
  }

  lemma LinkedPair(s: seq<Cell>, rank: seq<int>, key: U32, n: nat, i: int, j: int)
    requires Chained(s, rank) && key !in Entries(s)
    requires var m := Main(key, |s|); Used(s, m) && Main(s[m].key, |s|) == m
    requires n < |s| && !Used(s, n) && i != j
    requires Used(Linked(s, key, n), i) && Used(Linked(s, key, n), j)
    ensures Apart(Linked(s, key, n), LinkedRank(rank, Main(key, |s|), n), i, j)
  {
    hide Chained, Entries, Main;
    var m := Main(key, |s|);
    var i', j' := if i == n then m else i, if j == n then m else j;
    NoKey(s, rank, key, i');
    NoKey(s, rank, key, j');
    ChainedAt(s, rank, i', j');
    ChainedAt(s, rank, j', m);
    NoneBefore(s, rank, i', m);
  }

  // Its main position starts its chain: it goes to a free cell behind that.
  lemma LinkedBehind(s: seq<Cell>, rank: seq<int>, key: U32, n: nat)
    requires Chained(s, rank) && key !in Entries(s)
    requires var m := Main(key, |s|); Used(s, m) && Main(s[m].key, |s|) == m
    requires n < |s| && !Used(s, n)
    ensures Chained(Linked(s, key, n), LinkedRank(rank, Main(key, |s|), n))
  {
    hide Chained, HeadedBy, Follows, Apart, Entries;
    EmptyCells(s, rank);
    var t, r := Linked(s, key, n), LinkedRank(rank, Main(key, |s|), n);
    forall i | Used(t, i)
      ensures r[i] <= 0 && HeadedBy(t, r, i, Main(t[i].key, |t|))
      ensures t[i].next != -1 ==> Follows(t, r, i, t[i].next)
    {
      LinkedCell(s, rank, key, n, i);
    }
    forall i, j | Used(t, i) && Used(t, j) && i != j
      ensures Apart(t, r, i, j)
    {
      LinkedPair(s, rank, key, n, i, j);
    }
    ChainedFrom(t, r);
  }

  function Moved(s: seq<Cell>, key: U32, n: nat, p: nat): seq<Cell>
    requires |s| > 0 && n < |s| && p < |s|
  {
    var m := Main(key, |s|);
    s[p := s[p].(next := n)][n := s[m]][m := Cell(key, -1, Inner, null)]
  }

  ghost function MovedRank(rank: seq<int>, m: nat, n: nat): seq<int>
    requires m < |rank| && n < |rank|
  {
    rank[n := rank[m]][m := 0]
  }

  // A cell that is not moved keeps its key and rank.
  lemma MovedStays(s: seq<Cell>, rank: seq<int>, key: U32, n: nat, p: nat, h: int)
    requires |rank| == |s| > 0 && n < |s| && p < |s| && Used(s, h) && h != Main(key, |s|) && h != n
    ensures var t, r := Moved(s, key, n, p), MovedRank(rank, Main(key, |s|), n);
      |t| == |s| && Used(t, h) && t[h].key == s[h].key && r[h] == rank[h]
  {
    hide Main;
  }

  lemma MovedHead(s: seq<Cell>, rank: seq<int>, key: U32, n: nat, p: nat, i: int)
    requires Chained(s, rank) && key !in Entries(s)
    requires var m := Main(key, |s|); Used(s, m) && Main(s[m].key, |s|) != m && Used(s, p) && s[p].next == m
    requires n < |s| && !Used(s, n) && Used(Moved(s, key, n, p), i)
    ensures var t, r := Moved(s, key, n, p), MovedRank(rank, Main(key, |s|), n);
      r[i] <= 0 && HeadedBy(t, r, i, Main(t[i].key, |t|))
  {
    hide Chained, Entries, Main, Follows, Apart;
    var m := Main(key, |s|);
    EmptyCells(s, rank);
    if i != m {
      var i' := if i == n then m else i;
      ChainedAt(s, rank, i', i');
      var h := Main(s[i'].key, |s|);
      ChainedAt(s, rank, h, h);
      MovedStays(s, rank, key, n, p, h);
      assert Moved(s, key, n, p)[i].key == s[i'].key;
    }
  }

  lemma MovedNext(s: seq<Cell>, rank: seq<int>, key: U32, n: nat, p: nat, i: int)
    requires Chained(s, rank) && key !in Entries(s)
    requires var m := Main(key, |s|); Used(s, m) && Main(s[m].key, |s|) != m && Used(s, p) && s[p].next == m
    requires n < |s| && !Used(s, n) && Used(Moved(s, key, n, p), i)
    ensures var t, r := Moved(s, key, n, p), MovedRank(rank, Main(key, |s|), n);
      t[i].next != -1 ==> Follows(t, r, i, t[i].next)
  {
    hide Chained, Entries, Main, HeadedBy, Apart;
    var m := Main(key, |s|);
    var i' := if i == n then m else i;
    ChainedAt(s, rank, i', p);
    ChainedAt(s, rank, p, m);
    if s[i'].next == m {
      OneBefore(s, rank, i', p);
    }
  }

  lemma MovedPair(s: seq<Cell>, rank: seq<int>, key: U32, n: nat, p: nat, i: int, j: int)
    requires Chained(s, rank) && key !in Entries(s)
    requires var m := Main(key, |s|); Used(s, m) && Main(s[m].key, |s|) != m && Used(s, p) && s[p].next == m
    requires n < |s| && !Used(s, n) && i != j
    requires Used(Moved(s, key, n, p), i) && Used(Moved(s, key, n, p), j)
    ensures Apart(Moved(s, key, n, p), MovedRank(rank, Main(key, |s|), n), i, j)
  {
    hide Chained, Entries, Main;
    var m := Main(key, |s|);
    var i', j' := if i == n then m else i, if j == n then m else j;
    NoKey(s, rank, key, i');
    NoKey(s, rank, key, j');
    ChainedAt(s, rank, i', j');
    ChainedAt(s, rank, j', i');
    ChainedAt(s, rank, p, m);
    if s[i'].next == m {
      OneBefore(s, rank, i', p);
    }
  }

  // Its main position is held by a cell of another chain: that cell moves to a free one, and
  // the cell before it follows.
  lemma MovedOut(s: seq<Cell>, rank: seq<int>, key: U32, n: nat, p: nat)
    requires Chained(s, rank) && key !in Entries(s)
    requires var m := Main(key, |s|); Used(s, m) && Main(s[m].key, |s|) != m && Used(s, p) && s[p].next == m
    requires n < |s| && !Used(s, n)
    ensures Chained(Moved(s, key, n, p), MovedRank(rank, Main(key, |s|), n))
  {
    hide Chained, HeadedBy, Follows, Apart, Entries;
    EmptyCells(s, rank);
    var t, r := Moved(s, key, n, p), MovedRank(rank, Main(key, |s|), n);
    forall i | Used(t, i)
      ensures r[i] <= 0 && HeadedBy(t, r, i, Main(t[i].key, |t|))
      ensures t[i].next != -1 ==> Follows(t, r, i, t[i].next)
    {
      MovedHead(s, rank, key, n, p, i);
      MovedNext(s, rank, key, n, p, i);
    }
    forall i, j | Used(t, i) && Used(t, j) && i != j
      ensures Apart(t, r, i, j)
    {
      MovedPair(s, rank, key, n, p, i, j);
    }
    ChainedFrom(t, r);
  }

  // ---- what each of them does to the entries ----

  lemma FreeEntries(s: seq<Cell>, rank: seq<int>, key: U32)
    requires Chained(s, rank) && key !in Entries(s) && !Used(s, Main(key, |s|))
    ensures Entries(s[Main(key, |s|) := Cell(key, -1, Inner, null)]) == Entries(s)[key := Entry(Inner, null)]
  {
    var m := Main(key, |s|);
    var t := s[m := Cell(key, -1, Inner, null)];
    PlacedFree(s, rank, key);
    ChainedDistinct(s, rank);
    ChainedDistinct(t, rank[m := 0]);
    hide Chained, Entries, Distinct, Main;
    forall i | Used(s, i) ensures Kept(s[i], t) { KeptAs(s[i], t, i); }
    forall i | Used(t, i) && t[i].key != key ensures Kept(t[i], s) { KeptAs(t[i], s, i); }
    assert Used(t, m);
    EntriesChanged(s, t, key, Entry(Inner, null));
  }

  lemma LinkedDistinct(s: seq<Cell>, rank: seq<int>, key: U32, n: nat)
    requires Chained(s, rank) && key !in Entries(s)
    requires var m := Main(key, |s|); Used(s, m) && Main(s[m].key, |s|) == m
    requires n < |s| && !Used(s, n)
    ensures Distinct(s) && Distinct(Linked(s, key, n))
  {
    hide Chained, Entries, Distinct, Main, Linked;
    EmptyCells(s, rank);
    LinkedBehind(s, rank, key, n);
    ChainedDistinct(s, rank);
    ChainedDistinct(Linked(s, key, n), LinkedRank(rank, Main(key, |s|), n));
  }

  lemma LinkedEntries(s: seq<Cell>, rank: seq<int>, key: U32, n: nat)
    requires Chained(s, rank) && key !in Entries(s)
    requires var m := Main(key, |s|); Used(s, m) && Main(s[m].key, |s|) == m
    requires n < |s| && !Used(s, n)
    ensures Entries(Linked(s, key, n)) == Entries(s)[key := Entry(Inner, null)]
  {
    hide Chained, Entries, Distinct, Main;
    var m := Main(key, |s|);
    var t := Linked(s, key, n);
    LinkedDistinct(s, rank, key, n);
    forall i | Used(s, i) ensures Kept(s[i], t) { KeptAs(s[i], t, i); }
    forall i | Used(t, i) && t[i].key != key ensures Kept(t[i], s) { KeptAs(t[i], s, i); }
    assert Used(t, n);
    EntriesChanged(s, t, key, Entry(Inner, null));
  }

  lemma MovedDistinct(s: seq<Cell>, rank: seq<int>, key: U32, n: nat, p: nat)
    requires Chained(s, rank) && key !in Entries(s)
    requires var m := Main(key, |s|); Used(s, m) && Main(s[m].key, |s|) != m && Used(s, p) && s[p].next == m
    requires n < |s| && !Used(s, n)
    ensures Distinct(s) && Distinct(Moved(s, key, n, p)) && p != Main(key, |s|)
  {
    hide Chained, Entries, Distinct, Main, Moved;
    var m := Main(key, |s|);
    EmptyCells(s, rank);
    MovedOut(s, rank, key, n, p);
    ChainedDistinct(s, rank);
    ChainedDistinct(Moved(s, key, n, p), MovedRank(rank, m, n));
    ChainedAt(s, rank, p, m);
  }

  lemma MovedEntries(s: seq<Cell>, rank: seq<int>, key: U32, n: nat, p: nat)
    requires Chained(s, rank) && key !in Entries(s)
    requires var m := Main(key, |s|); Used(s, m) && Main(s[m].key, |s|) != m && Used(s, p) && s[p].next == m
    requires n < |s| && !Used(s, n)
    ensures Entries(Moved(s, key, n, p)) == Entries(s)[key := Entry(Inner, null)]
  {
    hide Chained, Entries, Distinct, Main, HeadedBy, Follows, Apart;
    var m := Main(key, |s|);
    var t := Moved(s, key, n, p);
    MovedDistinct(s, rank, key, n, p);
    forall i | Used(s, i) ensures Kept(s[i], t) { KeptAs(s[i], t, if i == m then n else i); }
    forall i | Used(t, i) && t[i].key != key ensures Kept(t[i], s) { KeptAs(t[i], s, if i == n then m else i); }
    assert Used(t, m);
    EntriesChanged(s, t, key, Entry(Inner, null));
  }

  // A cell whose flag or value is set.
  lemma Retagged(s: seq<Cell>, rank: seq<int>, n: nat, flag: Flag, value: Table?)
    requires Chained(s, rank) && Used(s, n) && flag != Empty
    ensures var t := s[n := s[n].(flag := flag, value := value)];
      Chained(t, rank) && Entries(t) == Entries(s)[s[n].key := Entry(flag, value)]
  {
    var t := s[n := s[n].(flag := flag, value := value)];
    RetaggedChained(s, rank, n, flag, value);
    ChainedDistinct(s, rank);
    ChainedDistinct(t, rank);
    var key := s[n].key;
    hide Chained, Entries, Distinct, Main;
    forall i | Used(s, i) && s[i].key != key ensures Kept(s[i], t) { KeptAs(s[i], t, i); }
    forall i | Used(t, i) && t[i].key != key ensures Kept(t[i], s) { KeptAs(t[i], s, i); }
    assert Used(t, n);
    EntriesChanged(s, t, key, Entry(flag, value));
  }

  lemma RetaggedChained(s: seq<Cell>, rank: seq<int>, n: nat, flag: Flag, value: Table?)
    requires Chained(s, rank) && Used(s, n) && flag != Empty
    ensures Chained(s[n := s[n].(flag := flag, value := value)], rank)
  {
    hide Chained, Main, Entries;
    EmptyCells(s, rank);
    var t := s[n := s[n].(flag := flag, value := value)];
    forall i, j | Used(t, i) && Used(t, j)
      ensures rank[i] <= 0 && HeadedBy(t, rank, i, Main(t[i].key, |t|))
      ensures t[i].next != -1 ==> Follows(t, rank, i, t[i].next)
      ensures i != j ==> Apart(t, rank, i, j)
    {
      ChainedAt(s, rank, i, j);
    }
    ChainedFrom(t, rank);
  }

  lemma KeptAs(c: Cell, t: seq<Cell>, i: int)
    requires Used(t, i) && t[i].key == c.key && t[i].flag == c.flag && t[i].value == c.value
    ensures Kept(c, t)
  {
  }

  // ---- searching a chain ----

  // Where the search for a key stands: any cell with that key is on the rest of this chain.
  ghost predicate Ahead(s: seq<Cell>, rank: seq<int>, key: U32, n: int)
    requires |rank| == |s|
  {
    forall j | Used(s, j) && s[j].key == key :: Used(s, n) && Same(s, n, j) && rank[n] <= rank[j]
  }

  lemma AheadFirst(s: seq<Cell>, rank: seq<int>, key: U32)
    requires Chained(s, rank)
    ensures Ahead(s, rank, key, Main(key, |s|))
  {
    hide Chained, Main;
    EmptyCells(s, rank);
    forall j | Used(s, j) && s[j].key == key
      ensures var m := Main(key, |s|); Used(s, m) && Same(s, m, j) && rank[m] <= rank[j]
    {
      ChainedAt(s, rank, j, j);
    }
  }

  lemma AheadNext(s: seq<Cell>, rank: seq<int>, key: U32, n: int)
    requires Chained(s, rank) && Used(s, n) && s[n].key != key && Ahead(s, rank, key, n)
    ensures s[n].next < 0 ==> key !in Entries(s)
    ensures s[n].next >= 0 ==> Used(s, s[n].next) && Ahead(s, rank, key, s[n].next) && rank[n] < rank[s[n].next] <= 0
  {
    hide Chained, Main, Entries;
    ChainedAt(s, rank, n, n);
    var q := s[n].next;
    if q < 0 && key in Entries(s) {
      var j := EntriesFrom(s, key);
      ChainedAt(s, rank, n, j);
    }
    if q >= 0 {
      ChainedAt(s, rank, q, n);
      forall j | Used(s, j) && s[j].key == key
        ensures Same(s, q, j) && rank[q] <= rank[j]
      {
        ChainedAt(s, rank, n, j);
      }
    }
  }

  // The cell before `m`, from the start of its chain.
  lemma TowardsNext(s: seq<Cell>, rank: seq<int>, o: int, m: int)
    requires Chained(s, rank) && Used(s, o) && Used(s, m) && Same(s, o, m) && rank[o] < rank[m]
    ensures Used(s, s[o].next)
    ensures var q := s[o].next; q != m ==> Same(s, q, m) && rank[o] < rank[q] < rank[m]
  {
    hide Chained, Main;
    ChainedAt(s, rank, o, m);
    var q := s[o].next;
    ChainedAt(s, rank, q, m);
  }

  class Table {
    var node: array<Cell>
    var lastfree: int
    ghost var rank: seq<int>

    // No cell above `lastfree` is free.
    ghost predicate Valid()
      reads this, node
    {
      && PowerOfTwo(node.Length) && Chained(node[..], rank)
      && -1 <= lastfree < node.Length && forall i | lastfree < i < node.Length :: node[i].flag != Empty
    }

    constructor ()
      ensures Valid() && Entries(node[..]) == map[] && fresh(node)
    {
      node := new Cell[1](_ => Nothing());
      lastfree := 0;
      rank := [0];
      new;
      assert node[..] == [Nothing()];
    }

    method FreeNode() returns (n: int)
      requires Valid()
      modifies this`lastfree
      ensures Valid() && -1 <= n < node.Length
      ensures n >= 0 ==> !Used(node[..], n)
      ensures n < 0 ==> AllUsed(node[..])
    {
      hide Chained;
      while lastfree >= 0
        invariant Valid()
        decreases lastfree
      {
        if node[lastfree].flag == Empty {
          return lastfree;
        }
        lastfree := lastfree - 1;
      }
      n := -1;
    }

    method Get(key: U32) returns (n: int)
      requires Valid()
      ensures -1 <= n < node.Length
      ensures n < 0 ==> key !in Entries(node[..])
      ensures n >= 0 ==> Used(node[..], n) && node[n].key == key
    {
      ghost var s := node[..];
      EmptyCells(s, rank);
      AheadFirst(s, rank, key);
      n := Main(key, node.Length);
      hide Chained, Entries, Main;
      while node[n].flag != Empty
        invariant 0 <= n < node.Length && Ahead(s, rank, key, n) && (Used(s, n) ==> rank[n] <= 0)
        decreases if Used(s, n) then 1 - rank[n] else 0
      {
        if node[n].key == key {
          return;
        }
        AheadNext(s, rank, key, n);
        if node[n].next < 0 {
          return -1;
        }
        n := node[n].next;
      }
      AheadNone(s, rank, key, n);
      n := -1;
    }

    // A new key, in a larger table if there is no free cell.
    method NewKey(key: U32) returns (n: nat)
      requires Valid() && key !in Entries(node[..])
      modifies this, node
      ensures Valid() && (node == old(node) || fresh(node))
      ensures !old(AllUsed(node[..])) ==> node == old(node)
      ensures n < node.Length && node[n].key == key && Used(node[..], n)
      ensures Entries(node[..]) == old(Entries(node[..]))[key := Entry(Inner, null)]
      decreases if AllUsed(node[..]) then 2 else 0
    {
      hide Chained, Main, Entries, PowerOfTwo;
      ghost var s, r := node[..], rank;
      EmptyCells(s, r);
      var m := Main(key, node.Length);
      ghost var t := s[m := Cell(key, -1, Inner, null)];
      if node[m].flag == Empty {
        assert !Used(s, m);
        PlacedFree(s, r, key);
        FreeEntries(s, r, key);
        rank := rank[m := 0];
      } else {
        var f := FreeNode();
        if f < 0 {
          Expand();
          n := NewKey(key);
          return;
        }
        var o := Main(node[m].key, node.Length);
        if o != m {
          o := Before(m);
          MovedOut(s, r, key, f, o);
          MovedEntries(s, r, key, f, o);
          node[o] := node[o].(next := f);
          node[f] := node[m];
          node[m] := Nothing();
          rank := MovedRank(rank, m, f);
          t := Moved(s, key, f, o);
        } else {
          LinkedBehind(s, r, key, f);
          LinkedEntries(s, r, key, f);
          node[f] := node[f].(next := node[m].next);
          node[m] := node[m].(next := f);
          rank := LinkedRank(rank, m, f);
          t := Linked(s, key, f);
          m := f;
        }
      }
      node[m] := node[m].(key := key, flag := Inner);
      n := m;
      assert node[..] == t;
    }

    method Insert(key: U32) returns (n: nat)
      requires Valid()
      modifies this, node
      ensures Valid() && (node == old(node) || fresh(node))
      ensures n < node.Length && node[n].key == key && Used(node[..], n)
      ensures var s := old(Entries(node[..]));
        Entries(node[..]) == if key in s then s else s[key := Entry(Inner, null)]
    {
      hide Chained, Entries;
      var i := Get(key);
      if i >= 0 {
        ChainedDistinct(node[..], rank);
        EntryOf(node[..], i);
        return i;
      }
      n := NewKey(key);
    }

    // Sets what a key leads to, or that it ends a word.
    method Set(n: nat, flag: Flag, value: Table?)
      requires Valid() && n < node.Length && Used(node[..], n) && flag != Empty
      modifies node
      ensures Valid() && node[n].key == old(node[n].key) && Used(node[..], n)
      ensures node[n].value == value && node[n].flag == flag
      ensures Entries(node[..]) == old(Entries(node[..]))[old(node[n].key) := Entry(flag, value)]
    {
      hide Chained, Entries;
      ghost var s := node[..];
      Retagged(s, rank, n, flag, value);
      node[n] := node[n].(flag := flag, value := value);
      assert node[..] == s[n := s[n].(flag := flag, value := value)];
    }

    // The cell whose next is at `m`.
    method Before(m: nat) returns (o: nat)
      requires Valid() && Used(node[..], m) && Main(node[m].key, node.Length) != m
      ensures Used(node[..], o) && node[o].next == m && o != m
    {
      hide Chained, Entries, Main;
      ghost var s := node[..];
      o := Main(node[m].key, node.Length);
      ChainedAt(s, rank, m, m);
      ChainedAt(s, rank, o, m);
      TowardsNext(s, rank, o, m);
      while node[o].next != m
        invariant Used(s, o) && Same(s, o, m) && rank[o] < rank[m]
        decreases rank[m] - rank[o]
      {
        TowardsNext(s, rank, o, m);
        o := node[o].next;
      }
    }

    // Doubles the table and enters every key again.
    method Expand()
      requires Valid()
      modifies this
      ensures Valid() && fresh(node)
      ensures Entries(node[..]) == old(Entries(node[..])) && !AllUsed(node[..])
      decreases 1
    {
      hide Chained, Main, Entries, PowerOfTwo;
      var before := node;
      ghost var s, r := node[..], rank;
      Doubled(before.Length);
      ChainedDistinct(s, r);
      node := new Cell[2 * before.Length](_ => Nothing());
      lastfree := node.Length - 1;
      rank := seq(node.Length, _ => 0);
      NoneUsed(node[..], rank);
      assert s[..0] == [];
      NoneUsedEntries();
      var i := 0;
      while i < before.Length
        invariant 0 <= i <= before.Length && Valid() && fresh(node) && node.Length == 2 * before.Length
        invariant before[..] == s && Entries(node[..]) == Entries(s[..i])
      {
        var old' := before[i];
        EntriesNext(s, i);
        if old'.flag != Empty {
          EntriesCount(s[..i]);
          EntriesCount(node[..]);
          ChainedDistinct(node[..], rank);
          var n := NewKey(old'.key);
          Retagged(node[..], rank, n, old'.flag, old'.value);
          ghost var t := node[..][n := node[n].(flag := old'.flag, value := old'.value)];
          node[n] := node[n].(flag := old'.flag, value := old'.value);
          assert node[..] == t;
        }
        i := i + 1;
      }
      assert s[..i] == s;
      EntriesCount(s);
      EntriesCount(node[..]);
      ChainedDistinct(node[..], rank);
    }
  }

  lemma AheadNone(s: seq<Cell>, rank: seq<int>, key: U32, n: int)
    requires |rank| == |s| && Ahead(s, rank, key, n) && !Used(s, n)
    ensures key !in Entries(s)
  {
    if key in Entries(s) {
      var j := EntriesFrom(s, key);
    }
  }

  lemma NoneUsed(s: seq<Cell>, rank: seq<int>)
    requires |rank| == |s| > 0 && forall i | 0 <= i < |s| :: s[i] == Nothing()
    ensures Chained(s, rank) && Entries(s) == map[] && !AllUsed(s)
  {
    assert !Used(s, 0);
    if Entries(s) != map[] {
      var k :| k in Entries(s);
      var i := EntriesFrom(s, k);
    }
  }

  lemma NoneUsedEntries()
    ensures Entries([]) == map[]
  {
  }

  lemma EntriesNext(s: seq<Cell>, i: nat)
    requires Distinct(s) && i < |s|
    ensures var m := Entries(s[..i]);
      Entries(s[..i + 1]) == if s[i].flag == Empty then m else m[s[i].key := Entry(s[i].flag, s[i].value)]
    ensures Distinct(s[..i]) && (s[i].flag != Empty ==> s[i].key !in Entries(s[..i]))
  {
    assert s[..i + 1][..i] == s[..i];
    DistinctTake(s, i);
    if s[i].flag != Empty && s[i].key in Entries(s[..i]) {
      EntryAbove(s, i);
    }
  }

  lemma Doubled(n: nat)
    requires PowerOfTwo(n)
    ensures n > 0 && PowerOfTwo(2 * n)
  {
  }
}
