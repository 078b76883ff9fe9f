// What the adaptive model has learned, told by the bytes it has seen: which contexts there are,
// when they are all given up, and how often each has counted which symbol.

module PpmHistory {
  import opened Words
  import opened RangeArithmetic
  import opened FrequencyModel
  import opened PpmModel

  // ---- the substrings of an input ----

  // All substrings of at most three bytes, the empty one included.
  ghost function Seen(x: seq<Byte>): set<Name> {
    set i, j | 0 <= i <= j <= |x| && j - i <= SUBCONTEXT_ORDER + 1 :: x[i..j]
  }

  function LastTwo(x: seq<Byte>): Name {
    if |x| > SUBCONTEXT_ORDER then x[|x| - SUBCONTEXT_ORDER..] else x
  }

  predicate EndsIn(x: seq<Byte>, s: Name) {
    |s| <= |x| && x[|x| - |s|..] == s
  }

  lemma SeenAt(x: seq<Byte>, i: nat, j: nat)
    requires i <= j <= |x| && j - i <= SUBCONTEXT_ORDER + 1
    ensures x[i..j] in Seen(x)
  {
  }

  lemma SeenSome(x: seq<Byte>, u: Name) returns (i: nat, j: nat)
    requires u in Seen(x)
    ensures i <= j <= |x| && j - i <= SUBCONTEXT_ORDER + 1 && x[i..j] == u
  {
    i, j :| 0 <= i <= j <= |x| && j - i <= SUBCONTEXT_ORDER + 1 && x[i..j] == u;
  }

  lemma SeenEnd(x: seq<Byte>, s: Name)
    requires EndsIn(x, s) && |s| <= SUBCONTEXT_ORDER + 1
    ensures s in Seen(x)
  {
    assert x[|x| - |s|..|x|] == x[|x| - |s|..];
    SeenAt(x, |x| - |s|, |x|);
  }

  lemma LastTwoEnds(x: seq<Byte>, s: Name)
    ensures EndsIn(LastTwo(x), s) <==> |s| <= SUBCONTEXT_ORDER && EndsIn(x, s)
  {
    if |x| > SUBCONTEXT_ORDER && |s| <= SUBCONTEXT_ORDER {
      assert LastTwo(x)[SUBCONTEXT_ORDER - |s|..] == x[|x| - |s|..];
    }
  }

  // A name that a byte has ended.
  predicate EndedBy(x: seq<Byte>, u: Name, v: Byte) {
    u != [] && |u| <= SUBCONTEXT_ORDER + 1 && u[|u| - 1] == v && EndsIn(x, u[..|u| - 1])
  }

  lemma EndsMore(x: seq<Byte>, u: Name, v: Byte)
    requires u != []
    ensures EndsIn(x + [v], u) <==> u[|u| - 1] == v && EndsIn(x, u[..|u| - 1])
  {
    var y, n := x + [v], |u| - 1;
    if n <= |x| {
      assert y[|y| - |u|..] == x[|x| - n..] + [v];
      assert u == u[..n] + [u[n]];
      assert (x[|x| - n..] + [v])[..n] == x[|x| - n..];
    }
  }

  // A byte more adds what it ends.
  lemma SeenMore(x: seq<Byte>, v: Byte, u: Name)
    ensures u in Seen(x + [v]) <==> u in Seen(x) || EndedBy(x, u, v)
  {
    hide Seen, EndsIn;
    var y := x + [v];
    if u in Seen(y) {
      var i, j := SeenSome(y, u);
      SeenShorter(x, v, u, i, j);
    }
    if u in Seen(x) {
      var i, j := SeenSome(x, u);
      assert y[i..j] == u;
      SeenAt(y, i, j);
    }
    if EndedBy(x, u, v) {
      EndsMore(x, u, v);
      SeenEnd(y, u);
    }
  }

  lemma SeenShorter(x: seq<Byte>, v: Byte, u: Name, i: nat, j: nat)
    requires i <= j <= |x| + 1 && j - i <= SUBCONTEXT_ORDER + 1 && (x + [v])[i..j] == u
    ensures u in Seen(x) || EndedBy(x, u, v)
  {
    hide Seen;
    if j <= |x| {
      assert x[i..j] == u;
      SeenAt(x, i, j);
    } else if i < j {
      assert u == x[i..] + [v];
      assert u[..|u| - 1] == x[i..];
    } else {
      SeenAt(x, 0, 0);
      assert x[0..0] == u;
    }
  }

  // ---- what one byte adds ----

  lemma {:induction false} LearnedAdds(m: Model, s: Name, v: Byte, u: Name)
    requires ChainIn(m, s) && u in Learned(m, s, v) && |s| <= SUBCONTEXT_ORDER
    ensures u in m || EndedBy(s, u, v)
    decreases |s|
  {
    var m' := Visit(m, s, v);
    VisitKeys(m, s, v);
    assert (s + [v])[..|s|] == s;
    if !Stops(m, s, v) {
      ChainVisit(m, s, s[1..], v);
      LearnedAdds(m', s[1..], v, u);
      if EndedBy(s[1..], u, v) {
        EndsShorter(s, u[..|u| - 1]);
      }
    }
  }

  lemma {:induction false} ParentsIn(m: Model, s: Name, v: Byte, t: Name)
    requires Closed(m, []) && s + [v] in m && EndsIn(s, t)
    ensures t + [v] in m
    decreases |s|
  {
    if |t| < |s| {
      assert ParentIn(m, s + [v]);
      assert (s + [v])[1..] == s[1..] + [v];
      assert s[1..][|s| - 1 - |t|..] == t;
      ParentsIn(m, s[1..], v, t);
    } else {
      assert s == t;
    }
  }

  // The contexts and symbols after a byte.
  lemma LearnedKeys(m: Model, s: Name, v: Byte, u: Name)
    requires WellFormed(m) && s in m && ChainIn(m, s) && |s| <= SUBCONTEXT_ORDER
    ensures u in Learned(m, s, v) <==> u in m || EndedBy(s, u, v)
  {
    hide Sound, Learned, EndsIn, ChainIn, Closed;
    assert Closed(m, []);
    LearnedSound(m, s, v, []);
    if u in Learned(m, s, v) {
      LearnedAdds(m, s, v, u);
    }
    if EndedBy(s, u, v) {
      ParentsIn(Learned(m, s, v), s, v, u[..|u| - 1]);
      assert u == u[..|u| - 1] + [v];
    }
  }

  // ---- whole inputs ----

  // The state after an input.
  ghost function After(x: seq<Byte>): (st: State)
    ensures st.Valid() && ChainIn(st.model, st.history)
  {
    if x == [] then
      InitialValid();
      InitialState()
    else
      var n := |x| - 1;
      var st := After(x[..n]);
      NextValid(st, x[n]);
      ChainOfWellFormed(Next(st, x[n]).model, Next(st, x[n]).history);
      Next(st, x[n])
  }

  lemma AfterMore(x: seq<Byte>, v: Byte)
    ensures After(x + [v]) == Next(After(x), v)
  {
    assert (x + [v])[..|x|] == x;
  }

  lemma EventsMore(st: State, v: Byte, y: seq<Byte>)
    requires st.Valid() && ChainIn(st.model, st.history)
    ensures Next(st, v).Valid() && Events(st, [v] + y) == SymbolEvents(st.model, st.history, v) + Events(Next(st, v), y)
  {
    NextValid(st, v);
    assert ([v] + y)[1..] == y;
  }

  // The coder goes through these states.
  lemma {:induction false} EventsFrom(x: seq<Byte>, y: seq<Byte>)
    ensures InitialState().Valid()
    ensures Events(InitialState(), x + y) == Events(InitialState(), x) + Events(After(x), y)
    decreases |x|, 1
  {
    hide Next, Events, After, SymbolEvents, State.Valid, ChainIn;
    InitialValid();
    if x == [] {
      assert x + y == y;
      AfterNothing();
      NoEvents(InitialState());
      assert [] + Events(InitialState(), y) == Events(InitialState(), y);
    } else {
      EventsSplit(x[..|x| - 1], x[|x| - 1], y);
      assert x[..|x| - 1] + [x[|x| - 1]] == x;
    }
  }

  lemma AfterNothing()
    ensures After([]) == InitialState()
  {
  }

  lemma {:induction false} EventsSplit(x: seq<Byte>, v: Byte, y: seq<Byte>)
    ensures InitialState().Valid()
    ensures Events(InitialState(), x + [v] + y) == Events(InitialState(), x + [v]) + Events(After(x + [v]), y)
    decreases |x|, 2
  {
    hide Next, Events, After, SymbolEvents, State.Valid, ChainIn;
    InitialValid();
    AfterMore(x, v);
    EventsFrom(x, [v] + y);
    EventsFrom(x, [v] + []);
    EventsMore(After(x), v, y);
    EventsMore(After(x), v, []);
    NoEvents(After(x + [v]));
    assert x + ([v] + y) == x + [v] + y && [v] + [] == [v];
    ConcatAssociative(Events(InitialState(), x), SymbolEvents(After(x).model, After(x).history, v), Events(After(x + [v]), y));
    ConcatAssociative(Events(InitialState(), x), SymbolEvents(After(x).model, After(x).history, v), []);
  }

  lemma NoEvents(st: State)
    requires st.Valid()
    ensures Events(st, []) == []
  {
  }

  lemma EventsOfByte(x: seq<Byte>, v: Byte)
    ensures InitialState().Valid()
    ensures Events(InitialState(), x + [v]) == Events(InitialState(), x) + SymbolEvents(After(x).model, After(x).history, v)
  {
    hide Next, Events, After, SymbolEvents, State.Valid, ChainIn;
    InitialValid();
    EventsFrom(x, [v] + []);
    EventsMore(After(x), v, []);
    NoEvents(Next(After(x), v));
    assert [v] + [] == [v];
    var e := SymbolEvents(After(x).model, After(x).history, v);
    assert e + [] == e;
  }

  // Where the pool was emptied last: as soon as there have been so many different substrings.
  ghost function Cut(x: seq<Byte>): (c: nat)
    ensures c <= |x|
  {
    if x == [] then 0
    else
      var c := Cut(x[..|x| - 1]);
      if |Seen(x[c..])| >= POOL_SIZE - SUBCONTEXT_ORDER then |x| else c
  }

  lemma CutStep(x: seq<Byte>, v: Byte)
    ensures Cut(x + [v]) == (if |Seen((x + [v])[Cut(x)..])| >= POOL_SIZE - SUBCONTEXT_ORDER then |x| + 1 else Cut(x))
  {
    assert (x + [v])[..|x|] == x;
  }

  lemma CutMore(x: seq<Byte>, v: Byte)
    ensures Recent(x + [v]) == if |Seen(Recent(x) + [v])| >= POOL_SIZE - SUBCONTEXT_ORDER then [] else Recent(x) + [v]
    ensures Cut(x + [v]) == if |Seen(Recent(x) + [v])| >= POOL_SIZE - SUBCONTEXT_ORDER then |x| + 1 else Cut(x)
  {
    hide Seen, Cut;
    CutStep(x, v);
    assert (x + [v])[Cut(x)..] == x[Cut(x)..] + [v];
  }

  // The bytes since the pool was emptied.
  ghost function Recent(x: seq<Byte>): seq<Byte> {
    x[Cut(x)..]
  }

  // The model holds exactly the substrings of at most three bytes since the pool was emptied,
  // and the context is that of the last two of these bytes.
  lemma {:induction false} HoldsSubstrings(x: seq<Byte>)
    ensures After(x).model.Keys == Seen(Recent(x)) && After(x).history == LastTwo(Recent(x))
    ensures |Seen(Recent(x))| < POOL_SIZE - SUBCONTEXT_ORDER
    decreases |x|
  {
    hide Seen, Cut, Learned;
    if x == [] {
      SeenNone();
      assert x[Cut(x)..] == [];
      KeysSize(InitialModel());
    } else {
      var z, v := x[..|x| - 1], x[|x| - 1];
      assert z + [v] == x;
      HoldsSubstrings(z);
      OneMore(z, v);
    }
  }

  lemma KeysSize(m: Model)
    ensures |m| == |m.Keys|
  {
  }

  lemma OneMore(x: seq<Byte>, v: Byte)
    requires After(x).model.Keys == Seen(Recent(x)) && After(x).history == LastTwo(Recent(x))
    ensures After(x + [v]).model.Keys == Seen(Recent(x + [v])) && After(x + [v]).history == LastTwo(Recent(x + [v]))
    ensures |Seen(Recent(x + [v]))| < POOL_SIZE - SUBCONTEXT_ORDER
  {
    hide Seen, Cut, After, Learned, LastTwo, State.Valid, ChainIn;
    CutMore(x, v);
    AfterMore(x, v);
    OneByte(After(x), Recent(x), v);
    SeenNone();
    KeysSize(InitialModel());
  }

  lemma SeenNone()
    ensures Seen([]) == {[]} && InitialModel().Keys == {[]} && LastTwo([]) == []
  {
    SeenAt([], 0, 0);
  }

  lemma OneByte(st: State, y: seq<Byte>, v: Byte)
    requires st.Valid() && ChainIn(st.model, st.history) && st.model.Keys == Seen(y) && st.history == LastTwo(y)
    ensures Learned(st.model, st.history, v).Keys == Seen(y + [v]) && Extend(st.history, v) == LastTwo(y + [v])
    ensures |Learned(st.model, st.history, v)| == |Seen(y + [v])|
  {
    hide Seen, Learned, Sound, Closed, ChainIn, EndsIn;
    var m' := Learned(st.model, st.history, v);
    forall u: Name
      ensures u in m' <==> u in Seen(y + [v])
    {
      LearnedKeys(st.model, st.history, v, u);
      SeenMore(y, v, u);
      if u != [] {
        LastTwoEnds(y, u[..|u| - 1]);
      }
    }
    assert m'.Keys == Seen(y + [v]);
    KeysSize(m');
  }

  lemma SeenGrows(x: seq<Byte>, v: Byte)
    ensures Seen(x) <= Seen(x + [v]) && |Seen(x)| <= |Seen(x + [v])|
  {
    hide Seen;
    forall u <- Seen(x)
      ensures u in Seen(x + [v])
    {
      SeenMore(x, v, u);
    }
    assert Seen(x + [v]) == Seen(x) + (Seen(x + [v]) - Seen(x));
  }

  // As long as there are few different substrings, the model holds those of the whole input.
  lemma {:induction false} HoldsAll(x: seq<Byte>)
    requires |Seen(x)| < POOL_SIZE - SUBCONTEXT_ORDER
    ensures Recent(x) == x && After(x).model.Keys == Seen(x) && After(x).history == LastTwo(x)
    decreases |x|
  {
    hide Seen, After, LastTwo;
    HoldsSubstrings(x);
    if x != [] {
      var z, v := x[..|x| - 1], x[|x| - 1];
      assert z + [v] == x;
      SeenGrows(z, v);
      HoldsAll(z);
      CutStep(z, v);
      assert x[0..] == x;
    }
  }

  // Every event that is coded could have been another: its slice is not the whole total.
  lemma {:induction false} EventsInform(m: Model, s: Name, v: Byte)
    requires Sound(m) && ChainIn(m, s)
    ensures forall e <- SymbolEvents(m, s, v) :: 0 < e.count < e.total
    decreases |s|
  {
    assert BoundedIn(m, s);
    if Stops(m, s, v) {
      SliceValid(m[s], TuningOf(s), v);
    } else {
      EventsInform(m, s[1..], v);
    }
  }

  // ---- how often a context has counted a symbol ----

  // The chain from the last two bytes of `x` down gets to context `s`: no longer context of it
  // has seen the symbol.
  ghost predicate Visits(x: seq<Byte>, s: Name, v: Byte) {
    EndsIn(LastTwo(x), s) && forall t: Name | |s| < |t| && EndsIn(LastTwo(x), t) :: t + [v] !in Seen(x)
  }

  // The occurrences of `v` behind `s` at which the chain got to `s`.
  ghost function Occurrences(x: seq<Byte>, s: Name, v: Byte): nat {
    if x == [] then 0
    else
      var n := |x| - 1;
      Occurrences(x[..n], s, v) + if x[n] == v && Visits(x[..n], s, v) then 1 else 0
  }

  // How many symbols below `w` have occurred there.
  ghost function Kinds(x: seq<Byte>, s: Name, w: nat): nat
    requires w <= 0x100
  {
    if w == 0 then 0 else Kinds(x, s, w - 1) + if Occurrences(x, s, w - 1) > 0 then 1 else 0
  }

  // The table of a context that was never rescaled.
  ghost function Table(x: seq<Byte>, s: Name): Context {
    var t := TuningOf(s);
    Context(seq(0x100, w requires 0 <= w < 0x100 => t.delta * Occurrences(x, s, w)),
            (if s == [] then ESCAPE_MINIMUM else 0) + t.escapeDelta * Kinds(x, s, 0x100))
  }

  // No count and no total has been too large so far.
  ghost predicate Unscaled(x: seq<Byte>, s: Name) {
    var t := TuningOf(s);
    (forall w: Byte :: Table(x, s).counts[w] <= 0xFF - t.delta) && Table(x, s).Total(t) <= BOTTOM - 0x100
  }

  lemma {:induction false} KindsMore(x: seq<Byte>, s: Name, v: Byte, w: nat)
    requires w <= 0x100
    ensures Kinds(x + [v], s, w) == Kinds(x, s, w) + if Visits(x, s, v) && v < w && Occurrences(x, s, v) == 0 then 1 else 0
  {
    hide Visits, Occurrences;
    if w > 0 {
      OccursMore(x, s, v, w - 1);
      KindsMore(x, s, v, w - 1);
    }
  }

  lemma OccursMore(x: seq<Byte>, s: Name, v: Byte, w: Byte)
    ensures Occurrences(x + [v], s, w) == Occurrences(x, s, w) + if w == v && Visits(x, s, v) then 1 else 0
  {
    assert (x + [v])[..|x|] == x;
  }

  lemma TableMore(x: seq<Byte>, s: Name, v: Byte)
    ensures Table(x + [v], s) == if Visits(x, s, v) then Table(x, s).More(TuningOf(s), v) else Table(x, s)
  {
    hide Visits, Occurrences, Kinds;
    var a, b, t := Table(x, s), Table(x + [v], s), TuningOf(s);
    forall w: Byte
      ensures b.counts[w] == if w == v && Visits(x, s, v) then a.counts[w] + t.delta else a.counts[w]
    {
      OccursMore(x, s, v, w);
    }
    KindsMore(x, s, v, 0x100);
    assert b.counts == if Visits(x, s, v) then a.counts[v := a.counts[v] + t.delta] else a.counts;
  }

  // Tables only grow.
  lemma UnscaledBefore(x: seq<Byte>, s: Name, v: Byte)
    requires Unscaled(x + [v], s)
    ensures Unscaled(x, s)
    ensures Visits(x, s, v) ==> Table(x, s).Learn(TuningOf(s), v) == Table(x + [v], s)
  {
    var a, t := Table(x, s), TuningOf(s);
    TableMore(x, s, v);
    if Visits(x, s, v) {
      var more := a.More(t, v);
      BelowUpdate(a.counts, v, a.counts[v] + t.delta, 0x100);
      assert more.counts[v] == a.counts[v] + t.delta;
      assert forall w: Byte :: a.counts[w] <= more.counts[w];
    }
  }

  // A context that has not been seen has counted nothing.
  lemma {:induction false} NoOccurrence(x: seq<Byte>, s: Name, v: Byte)
    requires s !in Seen(x)
    ensures Occurrences(x, s, v) == 0
    decreases |x|
  {
    hide Seen;
    if x != [] {
      var z := x[..|x| - 1];
      assert x == z + [x[|x| - 1]];
      SeenMore(z, x[|x| - 1], s);
      NoOccurrence(z, s, v);
      FreshStays(z, s, v);
    }
  }

  lemma {:induction false} NoKinds(x: seq<Byte>, s: Name, w: nat)
    requires w <= 0x100 && s !in Seen(x)
    ensures Kinds(x, s, w) == 0
  {
    if w > 0 {
      NoOccurrence(x, s, w - 1);
      NoKinds(x, s, w - 1);
    }
  }

  lemma FreshTable(x: seq<Byte>, s: Name)
    requires s !in Seen(x) && s != []
    ensures Table(x, s) == FreshContext()
  {
    forall w: Byte
      ensures Table(x, s).counts[w] == 0
    {
      NoOccurrence(x, s, w);
    }
    NoKinds(x, s, 0x100);
    assert Table(x, s).counts == NoCounts();
  }

  // Whether the chain from `s` down gets to `u`.
  ghost predicate GetsTo(m: Model, s: Name, u: Name, v: Byte)
    requires ChainIn(m, s)
    decreases |s|
  {
    u == s || (!Stops(m, s, v) && GetsTo(m, s[1..], u, v))
  }

  lemma {:induction false} GetsToAfter(m: Model, s: Name, r: Name, u: Name, v: Byte)
    requires s in m && ChainIn(m, r) && |r| < |s|
    ensures ChainIn(Visit(m, s, v), r) && (GetsTo(Visit(m, s, v), r, u, v) <==> GetsTo(m, r, u, v))
    decreases |r|
  {
    ChainVisit(m, s, r, v);
    assert Visit(m, s, v)[r] == m[r];
    if !Stops(m, r, v) {
      GetsToAfter(m, s, r[1..], u, v);
    }
  }

  lemma {:induction false} GetsToShorter(m: Model, s: Name, u: Name, v: Byte)
    requires ChainIn(m, s) && GetsTo(m, s, u, v)
    ensures |u| <= |s|
    decreases |s|
  {
    if u != s {
      GetsToShorter(m, s[1..], u, v);
    }
  }

  // The table of a context after a byte.
  lemma {:induction false} LearnedAt(m: Model, s: Name, v: Byte, u: Name)
    requires ChainIn(m, s) && u in Learned(m, s, v)
    ensures u in m ==> Learned(m, s, v)[u] == if GetsTo(m, s, u, v) then m[u].Learn(TuningOf(u), v) else m[u]
    ensures u !in m ==> Learned(m, s, v)[u] == FreshContext()
    decreases |s|
  {
    var m' := Visit(m, s, v);
    VisitKeys(m, s, v);
    if !Stops(m, s, v) {
      ChainVisit(m, s, s[1..], v);
      GetsToAfter(m, s, s[1..], u, v);
      if u !in m' {
        LearnedAt(m', s[1..], v, u);
      } else {
        LearnedAt(m', s[1..], v, u);
        if GetsTo(m, s[1..], u, v) {
          GetsToShorter(m, s[1..], u, v);
        }
      }
    }
  }

  // The chain gets to a context exactly if no longer one has seen the symbol.
  lemma {:induction false} GetsToMeans(m: Model, s: Name, u: Name, v: Byte)
    requires Sound(m) && ChainIn(m, s) && |s| <= SUBCONTEXT_ORDER
    ensures GetsTo(m, s, u, v) <==> EndsIn(s, u) && forall t: Name | |u| < |t| && EndsIn(s, t) :: t + [v] !in m
    decreases |s|
  {
    assert Holds(m, s);
    if u == s {
    } else if s == [] {
    } else {
      GetsToMeans(m, s[1..], u, v);
      EndsShorter(s, u);
      forall t: Name
        ensures EndsIn(s, t) <==> t == s || EndsIn(s[1..], t)
      {
        EndsShorter(s, t);
      }
      assert EndsIn(s, s);
    }
  }

  lemma EndsShorter(s: Name, t: Name)
    requires s != []
    ensures EndsIn(s, t) <==> t == s || EndsIn(s[1..], t)
  {
    if |t| < |s| {
      assert s[1..][|s| - 1 - |t|..] == s[|s| - |t|..];
    }
  }

  // Every table that was never rescaled is told by the occurrences: twice, or thrice in the
  // root, the number of times that the chain got there with that symbol.
  lemma {:induction false} TablesAreCounts(x: seq<Byte>, s: Name)
    requires s in After(x).model && Unscaled(Recent(x), s)
    ensures After(x).model[s] == Table(Recent(x), s)
    decreases |x|
  {
    hide Seen, Cut, After, Next, Learned, LastTwo, Table, Unscaled, State.Valid, ChainIn;
    if x == [] {
      assert x[Cut(x)..] == [];
      AfterNothing();
      RootTable(s);
    } else {
      var z, v := x[..|x| - 1], x[|x| - 1];
      assert z + [v] == x;
      HoldsSubstrings(z);
      CutMore(z, v);
      AfterMore(z, v);
      OneByte(After(z), Recent(z), v);
      NextIs(After(z), v);
      if Recent(x) == [] {
        RootTable(s);
      } else {
        UnscaledBefore(Recent(z), s, v);
        if s in After(z).model {
          TablesAreCounts(z, s);
        }
        OneTable(After(z), Recent(z), s, v);
      }
    }
  }

  lemma NextIs(st: State, v: Byte)
    requires st.Valid() && ChainIn(st.model, st.history)
    ensures Next(st, v).model == if |Learned(st.model, st.history, v)| >= POOL_SIZE - SUBCONTEXT_ORDER then InitialModel() else Learned(st.model, st.history, v)
  {
  }

  lemma OneTable(st: State, y: seq<Byte>, s: Name, v: Byte)
    requires st.Valid() && ChainIn(st.model, st.history) && st.model.Keys == Seen(y) && st.history == LastTwo(y)
    requires s in Learned(st.model, st.history, v) && Unscaled(y + [v], s) && (s in st.model ==> st.model[s] == Table(y, s))
    ensures Learned(st.model, st.history, v)[s] == Table(y + [v], s)
  {
    hide Seen, Table, Unscaled, Learned, LastTwo;
    LearnedAt(st.model, st.history, v, s);
    TableMore(y, s, v);
    UnscaledBefore(y, s, v);
    GetsToMeans(st.model, st.history, s, v);
    if s !in st.model {
      FreshTable(y, s);
      FreshStays(y, s, v);
    }
  }

  lemma FreshStays(y: seq<Byte>, s: Name, v: Byte)
    requires s !in Seen(y)
    ensures !Visits(y, s, v)
  {
    hide Seen, EndsIn, LastTwo;
    LastTwoEnds(y, s);
    if EndsIn(y, s) && |s| <= SUBCONTEXT_ORDER {
      SeenEnd(y, s);
    }
  }

  lemma RootTable(s: Name)
    requires s in InitialModel()
    ensures InitialModel()[s] == Table([], s)
  {
    forall w: nat | w <= 0x100
      ensures Kinds([], s, w) == 0
    {
      NoneKinds(s, w);
    }
    assert Table([], s).counts == NoCounts();
  }

  lemma {:induction false} NoneKinds(s: Name, w: nat)
    requires w <= 0x100
    ensures Kinds([], s, w) == 0
  {
    if w > 0 {
      NoneKinds(s, w - 1);
    }
  }
}
