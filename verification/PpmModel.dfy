// The order-2 model as a whole: which events one byte is coded by, and what it teaches the
// contexts on its chain.

module PpmModel {
  import opened Words
  import opened RangeArithmetic
  import opened FrequencyModel

  type Model = map<Name, Context>

  function InitialModel(): Model {
    map[[] := RootContext()]
  }

  // Contexts are bounded, every name extends a name in the pool, and a context holds
  // exactly the symbols whose extended names are in the pool.
  ghost predicate Sound(m: Model) {
    && [] in m
    && (forall s <- m :: |s| <= SUBCONTEXT_ORDER + 1 && BoundedIn(m, s))
    && (forall s <- m {:trigger PrefixIn(m, s)} :: PrefixIn(m, s))
    && (forall s <- m {:trigger Holds(m, s)} | |s| <= SUBCONTEXT_ORDER :: Holds(m, s))
  }

  ghost predicate BoundedIn(m: Model, s: Name)
    requires s in m
  {
    m[s].Bounded(TuningOf(s))
  }

  ghost predicate Holds(m: Model, s: Name)
    requires s in m
  {
    forall v: Byte :: m[s].counts[v] > 0 <==> s + [v] in m
  }

  // Every name but the root's and the exempt one has its parent, the name without its
  // oldest byte, in the pool.
  ghost predicate Closed(m: Model, exempt: Name) {
    forall s <- m {:trigger ParentIn(m, s)} | s != exempt :: ParentIn(m, s)
  }

  ghost predicate PrefixIn(m: Model, s: Name) {
    s != [] ==> s[..|s| - 1] in m
  }

  ghost predicate ParentIn(m: Model, s: Name) {
    s != [] ==> s[1..] in m
  }

  ghost predicate WellFormed(m: Model) {
    Sound(m) && Closed(m, [])
  }

  // All contexts on the chain from `s` down to the root are present.
  ghost predicate ChainIn(m: Model, s: Name) {
    s in m && (s != [] ==> ChainIn(m, s[1..]))
  }

  // Coding stops at the first context of the chain that holds the symbol, or at the root.
  predicate Stops(m: Model, s: Name, v: Byte)
    requires s in m
  {
    s == [] || m[s].counts[v] > 0
  }

  // The events that code `v` on the chain of `s`: an escape from every non-empty context
  // that does not hold `v`, then the slice of `v` in the one that does.
  ghost function SymbolEvents(m: Model, s: Name, v: Byte): seq<Event>
    requires ChainIn(m, s)
    decreases |s|
  {
    if Stops(m, s, v) then ContextEvents(m, s, v) else ContextEvents(m, s, v) + SymbolEvents(m, s[1..], v)
  }

  ghost function ContextEvents(m: Model, s: Name, v: Byte): seq<Event>
    requires s in m
  {
    if Stops(m, s, v) then [m[s].Slice(TuningOf(s), v)] else EscapeEvents(m[s])
  }

  ghost function EscapeEvents(c: Context): seq<Event> {
    if 0 < c.escapes < c.Total(SUB_TUNING) then [c.EscapeSlice(SUB_TUNING)] else []
  }

  // Context `s` learns `v`; a symbol met for the first time enters the pool.
  ghost function Visit(m: Model, s: Name, v: Byte): Model
    requires s in m
  {
    if s + [v] in m then m[s := m[s].Learn(TuningOf(s), v)]
    else m[s := m[s].Learn(TuningOf(s), v)][s + [v] := FreshContext()]
  }

  // The encoder's order: from the longest context down.
  ghost function Learned(m: Model, s: Name, v: Byte): Model
    requires ChainIn(m, s)
    decreases |s|
  {
    if Stops(m, s, v) then Visit(m, s, v)
    else ChainVisit(m, s, s[1..], v); Learned(Visit(m, s, v), s[1..], v)
  }

  lemma {:induction false} ChainVisit(m: Model, s: Name, u: Name, v: Byte)
    requires s in m && ChainIn(m, u)
    ensures ChainIn(Visit(m, s, v), u)
    decreases |u|
  {
    if u != [] {
      ChainVisit(m, s, u[1..], v);
    }
  }

  // The context of the chain at which coding stops.
  ghost function StopAt(m: Model, s: Name, v: Byte): (u: Name)
    requires ChainIn(m, s)
    ensures ChainIn(m, u) && |u| <= |s| && Stops(m, u, v)
    decreases |s|
  {
    if Stops(m, s, v) then s else StopAt(m, s[1..], v)
  }

  // The decoder's order for the contexts above the one it found the symbol in.
  ghost function Patched(m: Model, s: Name, stop: Name, v: Byte): Model
    requires ChainIn(m, s)
    decreases |s|
  {
    if |s| <= |stop| then m
    else ChainVisit(m, s, s[1..], v); Patched(Visit(m, s, v), s[1..], stop, v)
  }

  lemma VisitsCommute(m: Model, s: Name, u: Name, v: Byte)
    requires s in m && u in m && s != u
    ensures Visit(Visit(m, s, v), u, v) == Visit(Visit(m, u, v), s, v)
  {
    assert (s + [v])[..|s|] == s && (u + [v])[..|u|] == u;
  }

  // Visiting a longer context changes nothing the rest of the chain depends on.
  lemma {:induction false} EventsAfterVisit(m: Model, s: Name, u: Name, v: Byte)
    requires s in m && ChainIn(m, u) && |u| < |s|
    ensures ChainIn(Visit(m, s, v), u)
    ensures SymbolEvents(Visit(m, s, v), u, v) == SymbolEvents(m, u, v)
    ensures StopAt(Visit(m, s, v), u, v) == StopAt(m, u, v)
    decreases |u|
  {
    ChainVisit(m, s, u, v);
    assert Visit(m, s, v)[u] == m[u];
    if !Stops(m, u, v) {
      EventsAfterVisit(m, s, u[1..], v);
    }
  }

  // One context of the chain: what is coded in it, and what is left for the next one.
  lemma ChainStep(m: Model, s: Name, v: Byte)
    requires ChainIn(m, s)
    ensures Stops(m, s, v) ==> SymbolEvents(m, s, v) == ContextEvents(m, s, v) && Learned(m, s, v) == Visit(m, s, v)
    ensures !Stops(m, s, v) ==>
              && s != [] && ChainIn(Visit(m, s, v), s[1..])
              && SymbolEvents(m, s, v) == ContextEvents(m, s, v) + SymbolEvents(Visit(m, s, v), s[1..], v)
              && Learned(m, s, v) == Learned(Visit(m, s, v), s[1..], v)
  {
    if !Stops(m, s, v) {
      ChainVisit(m, s, s[1..], v);
      EventsAfterVisit(m, s, s[1..], v);
    }
  }

  // The decoder updates the context it found the symbol in first and the longer contexts
  // afterwards; the outcome is the encoder's.
  lemma {:induction false} DecoderOrder(m: Model, s: Name, v: Byte)
    requires ChainIn(m, s)
    ensures var stop := StopAt(m, s, v);
            ChainIn(Visit(m, stop, v), s) && Patched(Visit(m, stop, v), s, stop, v) == Learned(m, s, v)
    decreases |s|
  {
    var stop := StopAt(m, s, v);
    ChainVisit(m, stop, s, v);
    if !Stops(m, s, v) {
      ChainVisit(m, s, s[1..], v);
      EventsAfterVisit(m, s, s[1..], v);
      DecoderOrder(Visit(m, s, v), s[1..], v);
      VisitsCommute(m, s, stop, v);
    }
  }

  // ---- what learning keeps ----

  lemma VisitKeys(m: Model, s: Name, v: Byte)
    requires s in m
    ensures Visit(m, s, v).Keys == m.Keys + {s + [v]}
    ensures m.Keys <= Visit(m, s, v).Keys && |Visit(m, s, v)| <= |m| + 1
  {
    assert Visit(m, s, v).Keys == m.Keys + {s + [v]};
  }

  lemma VisitBounded(m: Model, s: Name, v: Byte, u: Name)
    requires Sound(m) && s in m && |s| <= SUBCONTEXT_ORDER && u in Visit(m, s, v)
    ensures |u| <= SUBCONTEXT_ORDER + 1 && Visit(m, s, v)[u].Bounded(TuningOf(u))
  {
    LearnBounded(m[s], TuningOf(s), v);
    BelowNone(0x100);
  }

  lemma VisitHolds(m: Model, s: Name, v: Byte, u: Name)
    requires Sound(m) && s in m && |s| <= SUBCONTEXT_ORDER && u in Visit(m, s, v) && |u| <= SUBCONTEXT_ORDER
    ensures Holds(Visit(m, s, v), u)
  {
    var m' := Visit(m, s, v);
    LearnBounded(m[s], TuningOf(s), v);
    VisitKeys(m, s, v);
    assert (s + [v])[..|s|] == s && (s + [v])[|s|] == v;
    forall w: Byte
      ensures m'[u].counts[w] > 0 <==> u + [w] in m'
    {
      assert (u + [w])[..|u|] == u && (u + [w])[|u|] == w;
      assert u in m ==> Holds(m, u);
      assert u + [w] in m ==> PrefixIn(m, u + [w]);
    }
  }

  lemma VisitSound(m: Model, s: Name, v: Byte)
    requires Sound(m) && s in m && |s| <= SUBCONTEXT_ORDER
    ensures Sound(Visit(m, s, v)) && s + [v] in Visit(m, s, v)
  {
    var m' := Visit(m, s, v);
    VisitKeys(m, s, v);
    forall u <- m'
      ensures |u| <= SUBCONTEXT_ORDER + 1 && BoundedIn(m', u)
      ensures PrefixIn(m', u)
      ensures |u| <= SUBCONTEXT_ORDER ==> Holds(m', u)
    {
      VisitBounded(m, s, v, u);
      VisitPrefix(m, s, v, u);
      if |u| <= SUBCONTEXT_ORDER {
        VisitHolds(m, s, v, u);
      }
    }
  }

  lemma VisitPrefix(m: Model, s: Name, v: Byte, u: Name)
    requires Sound(m) && s in m && u in Visit(m, s, v)
    ensures PrefixIn(Visit(m, s, v), u)
  {
    VisitKeys(m, s, v);
    assert u in m ==> PrefixIn(m, u);
    assert (s + [v])[..|s + [v]| - 1] == s;
  }

  lemma ChainOfWellFormed(m: Model, s: Name)
    requires WellFormed(m) && s in m
    ensures ChainIn(m, s)
    decreases |s|
  {
    assert ParentIn(m, s);
    if s != [] {
      ChainOfWellFormed(m, s[1..]);
    }
  }

  // Learning one byte keeps the pool well formed, adds at most one symbol per context of
  // the chain, and leaves the extended name of every one of them in the pool.
  lemma {:induction false} LearnedSound(m: Model, s: Name, v: Byte, exempt: Name)
    requires Sound(m) && Closed(m, exempt) && ChainIn(m, s) && |s| <= SUBCONTEXT_ORDER
    requires exempt == [] || exempt[1..] == s + [v]
    ensures WellFormed(Learned(m, s, v)) && m.Keys <= Learned(m, s, v).Keys
    ensures s + [v] in Learned(m, s, v)
    ensures |Learned(m, s, v)| <= |m| + |s| + 1
    decreases |s|
  {
    var m' := Visit(m, s, v);
    VisitSound(m, s, v);
    VisitKeys(m, s, v);
    if Stops(m, s, v) {
      VisitCloses(m, s, v, exempt);
    } else {
      ChainVisit(m, s, s[1..], v);
      VisitExempts(m, s, v, exempt);
      LearnedSound(m', s[1..], v, s + [v]);
    }
  }

  lemma VisitExempts(m: Model, s: Name, v: Byte, exempt: Name)
    requires Closed(m, exempt) && s in m && s != []
    requires exempt == [] || exempt[1..] == s + [v]
    ensures Closed(Visit(m, s, v), s + [v]) && (s + [v])[1..] == s[1..] + [v]
  {
    VisitKeys(m, s, v);
    forall u <- Visit(m, s, v) | u != s + [v]
      ensures ParentIn(Visit(m, s, v), u)
    {
      assert u != exempt ==> ParentIn(m, u);
    }
  }

  lemma VisitCloses(m: Model, s: Name, v: Byte, exempt: Name)
    requires Sound(m) && Closed(m, exempt) && s in m && |s| <= SUBCONTEXT_ORDER && Stops(m, s, v)
    requires exempt == [] || exempt[1..] == s + [v]
    ensures Closed(Visit(m, s, v), [])
  {
    var m' := Visit(m, s, v);
    VisitKeys(m, s, v);
    forall u <- m'
      ensures ParentIn(m', u)
    {
      assert u in m && u != exempt ==> ParentIn(m, u);
      assert s == [] ==> (s + [v])[1..] == [];
      assert s != [] ==> Holds(m, s) && s + [v] in m;
    }
  }

  // ---- whole inputs ----

  datatype State = State(model: Model, history: Name) {
    ghost predicate Valid() {
      WellFormed(model) && history in model && |history| <= SUBCONTEXT_ORDER && |model| < POOL_SIZE - SUBCONTEXT_ORDER
    }
  }

  function InitialState(): State {
    State(InitialModel(), [])
  }

  // The context of the next byte: at most the last two bytes.
  function Extend(history: Name, v: Byte): Name {
    if |history| < SUBCONTEXT_ORDER then history + [v] else history[1..] + [v]
  }

  // The state after `v`; a nearly full pool is emptied.
  ghost function Next(st: State, v: Byte): State
    requires ChainIn(st.model, st.history)
  {
    if |Learned(st.model, st.history, v)| >= POOL_SIZE - SUBCONTEXT_ORDER then InitialState()
    else State(Learned(st.model, st.history, v), Extend(st.history, v))
  }

  lemma InitialValid()
    ensures InitialState().Valid()
  {
    BelowNone(0x100);
  }

  lemma NextValid(st: State, v: Byte)
    requires st.Valid()
    ensures ChainIn(st.model, st.history)
    ensures |Learned(st.model, st.history, v)| <= POOL_SIZE
    ensures Next(st, v).Valid()
  {
    var h := st.history;
    ChainOfWellFormed(st.model, h);
    LearnedSound(st.model, h, v, []);
    ExtendIn(Learned(st.model, h, v), h, v);
    InitialValid();
  }

  lemma ExtendIn(m: Model, history: Name, v: Byte)
    requires WellFormed(m) && history + [v] in m && |history| <= SUBCONTEXT_ORDER
    ensures Extend(history, v) in m && |Extend(history, v)| <= SUBCONTEXT_ORDER
  {
    assert ParentIn(m, history + [v]);
    assert history != [] ==> (history + [v])[1..] == history[1..] + [v];
  }

  lemma ContextEventsValid(m: Model, s: Name, v: Byte)
    requires Sound(m) && s in m
    ensures AllValid(ContextEvents(m, s, v))
  {
    assert BoundedIn(m, s);
    if Stops(m, s, v) {
      SliceValid(m[s], TuningOf(s), v);
    }
  }

  lemma {:induction false} SymbolEventsValid(m: Model, s: Name, v: Byte)
    requires Sound(m) && ChainIn(m, s)
    ensures AllValid(SymbolEvents(m, s, v))
    decreases |s|
  {
    ContextEventsValid(m, s, v);
    if !Stops(m, s, v) {
      SymbolEventsValid(m, s[1..], v);
    }
  }

  // The events of a whole input from state `st` on.
  ghost function Events(st: State, input: seq<Byte>): (es: seq<Event>)
    requires st.Valid()
    ensures AllValid(es)
    decreases |input|
  {
    if input == [] then []
    else
      NextValid(st, input[0]);
      SymbolEventsValid(st.model, st.history, input[0]);
      SymbolEvents(st.model, st.history, input[0]) + Events(Next(st, input[0]), input[1..])
  }

  // The compressed form of `input`.
  ghost function Compressed(input: seq<Byte>): seq<Byte> {
    InitialValid();
    Emitted(FullInterval, Events(InitialState(), input))
  }
}
