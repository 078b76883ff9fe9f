// The other direction: the decompressor follows the compressor through its events, and so
// rebuilds both the model and the packet.

module PacketDecoder {
  import opened Words
  import opened RangeArithmetic
  import opened FrequencyModel
  import opened PpmModel
  import opened PoolLayout
  import opened ContextPool
  import opened RangeCoder
  import opened PacketCoder

  // What the decoder has still to read is what an encoder in the same interval emits for `es`.
  ghost predicate Ahead(dec: RangeDecoder, es: seq<Event>)
    reads dec
  {
    dec.Valid() && AllValid(es) && dec.ahead == Emitted(dec.State(), es)
  }

  lemma AheadFacts(dec: RangeDecoder, es: seq<Event>)
    requires Ahead(dec, es)
    ensures dec.Valid() && dec.State().Ready() && dec.Synchronised() && AllValid(es)
    ensures dec.code == Window(dec.ahead) && dec.ahead == Emitted(dec.State(), es)
    ensures dec.State().low == dec.low && dec.State().range == dec.range
    ensures es == [] ==> dec.ahead == RangeArithmetic.Flush(dec.low)
  {
  }

  // ---- one context ----

  // Tries to decode a symbol in context `s`: stops if the context holds the symbol `v` that
  // comes next, and otherwise steps over the escape. At the end of the input every context
  // escapes.
  method DecodeContext(pool: ContextPool, dec: RangeDecoder, ghost s: Name, ghost v: Byte, ghost more: seq<Event>, ghost ended: bool,
                       context: nat)
    returns (stops: bool, value: Byte, symbol: nat)
    requires pool.Valid() && pool.nextSymbol < POOL_SIZE && s in pool.model && s != [] && |s| <= SUBCONTEXT_ORDER
    requires LinkedIn(pool.symbols[..], pool.at, pool.model, {}) && s in pool.at && context == pool.at[s]
    requires AllValid(more) && Ahead(dec, if ended then [] else ContextEvents(pool.model, s, v) + more)
    modifies pool, pool.symbols, dec`low, dec`range, dec`code, dec`next, dec`ahead
    ensures stops == (!ended && Stops(old(pool.model), s, v))
    ensures Ahead(dec, if ended then [] else more)
    ensures !stops ==> unchanged(pool) && unchanged(pool.symbols) && pool.Valid()
    ensures !stops ==> LinkedIn(pool.symbols[..], pool.at, pool.model, {})
    ensures stops ==> value == v && Visited(pool, old(pool.at), old(pool.model), s, v, [], symbol) && s in pool.at && pool.at[s] == context
  {
    hide *;
    ghost var m, at, iv := pool.model, pool.at, dec.State();
    ghost var es := ContextEvents(m, s, v);
    ContextFacts(pool, s, v);
    HeadFacts(pool, s);
    TuningFacts(s);
    ContextEventFacts(m, s, v);
    AheadFacts(dec, if ended then [] else es + more);
    stops, value, symbol := false, 0, 0;
    var escapes, total := pool.symbols[context].escapes, pool.symbols[context].total;
    if escapes == 0 || escapes >= total {
      assert es + more == more;
      return;
    }
    ghost var e := if ended || !Stops(m, s, v) then Event(0, escapes, total) else m[s].Slice(SUB_TUNING, v);
    ReadFacts(iv, e, more, ended);
    var code := dec.Read(total);
    if code < escapes {
      dec.Decode(0, escapes, total, iv);
      AheadAfter(dec, iv, e, more, ended);
      return;
    }
    var under, count;
    value, symbol, under, count := pool.Decode(s, {}, v, context, code - escapes, SUBCONTEXT_SYMBOL_DELTA, 0);
    dec.Decode(escapes + under, count, total, iv);
    AheadAfter(dec, iv, e, more, ended);
    pool.Adapt(m, s, v, {} + Unlinked(m, s, v), context, count, SUBCONTEXT_SYMBOL_DELTA, 0);
    VisitedFirst(pool, at, m, s, v, symbol);
    stops := true;
  }

  lemma HeadFacts(pool: ContextPool, s: Name)
    requires pool.Valid() && s in pool.model
    ensures s in pool.at && pool.at[s] < pool.symbols.Length
    ensures pool.symbols[pool.at[s]].escapes == pool.model[s].escapes
    ensures pool.symbols[pool.at[s]].total == pool.model[s].Total(TuningOf(s))
  {
    assert TotalIn(pool.symbols[..], pool.at, pool.model, s);
    assert ContextIn(pool.symbols[..], pool.at, s, pool.model[s], pool.trees[s]);
  }

  // What is coded in a context below the root, by its escape count.
  lemma ContextEventFacts(m: Model, s: Name, v: Byte)
    requires Sound(m) && s in m && s != []
    ensures TuningOf(s) == SUB_TUNING && m[s].Total(SUB_TUNING) <= 0xFF00 <= BOTTOM
    ensures AllValid(ContextEvents(m, s, v))
    ensures m[s].escapes == 0 || m[s].escapes >= m[s].Total(SUB_TUNING) ==> !Stops(m, s, v) && ContextEvents(m, s, v) == []
    ensures 0 < m[s].escapes < m[s].Total(SUB_TUNING) ==>
              && Event(0, m[s].escapes, m[s].Total(SUB_TUNING)).Valid()
              && ContextEvents(m, s, v) ==
                 [if Stops(m, s, v) then m[s].Slice(SUB_TUNING, v) else Event(0, m[s].escapes, m[s].Total(SUB_TUNING))]
    ensures Stops(m, s, v) ==>
              var e := m[s].Slice(SUB_TUNING, v);
              && e.Valid() && e.total == m[s].Total(SUB_TUNING) && e.count == m[s].counts[v]
              && e.under == m[s].escapes + Below(m[s].counts, v)
  {
    assert BoundedIn(m, s);
    ContextEventsValid(m, s, v);
    BelowMonotone(m[s].counts, v + 1, 0x100);
    if Stops(m, s, v) {
      SliceValid(m[s], SUB_TUNING, v);
    }
  }

  lemma ReadFacts(iv: Interval, e: Event, more: seq<Event>, ended: bool)
    requires iv.Ready() && e.Valid() && AllValid(more)
    ensures AllValid([e] + more)
    ensures var unit := UnitOf(iv, Window(if ended then RangeArithmetic.Flush(iv.low) else Emitted(iv, [e] + more)), e.total);
            if ended then unit == 0 else e.under <= unit < e.under + e.count
    ensures e.under + e.count <= e.total <= BOTTOM && 0 < e.count
  {
    if ended {
      ReadsEnd(iv, e.total);
      EmittedFirst(iv, e, more);
    } else {
      ReadsEvent(iv, e, more);
    }
  }

  lemma AheadAfter(dec: RangeDecoder, iv: Interval, e: Event, more: seq<Event>, ended: bool)
    requires iv.Ready() && e.Valid() && AllValid(more) && AllValid([e] + more) && (ended ==> e.under == 0)
    requires dec.Valid() && dec.State() == Coded(iv, e).interval
    requires dec.ahead == Drop(if ended then RangeArithmetic.Flush(iv.low) else Emitted(iv, [e] + more), |Coded(iv, e).bytes|)
    ensures Ahead(dec, if ended then [] else more)
  {
    if ended {
      EscapesAtEnd(iv, e);
    } else {
      ReadsEvent(iv, e, more);
    }
  }

  lemma VisitedFirst(pool: ContextPool, at: Places, m: Model, s: Name, v: Byte, symbol: nat)
    requires pool.Valid() && s in m && pool.model == Visit(m, s, v) && Extends(at, pool.at)
    requires LinkedIn(pool.symbols[..], pool.at, pool.model, {} + Unlinked(m, s, v))
    requires s + [v] in pool.at && symbol == pool.at[s + [v]]
    ensures Visited(pool, at, m, s, v, [], symbol)
  {
    hide Visit, ContextPool.Valid, LinkedIn;
  }

  // Decodes a symbol in the root context, which holds them all; its escape ends the packet.
  method DecodeRoot(pool: ContextPool, dec: RangeDecoder, ghost v: Byte, ghost more: seq<Event>, ghost ended: bool)
    returns (finished: bool, value: Byte, symbol: nat)
    requires pool.Valid() && pool.nextSymbol < POOL_SIZE && [] in pool.model && LinkedIn(pool.symbols[..], pool.at, pool.model, {})
    requires AllValid(more) && Ahead(dec, if ended then [] else ContextEvents(pool.model, [], v) + more)
    modifies pool, pool.symbols, dec`low, dec`range, dec`code, dec`next, dec`ahead
    ensures finished == ended && (finished ==> pool.symbols.Length == POOL_SIZE)
    ensures !finished ==> Ahead(dec, more) && value == v
    ensures !finished ==> Visited(pool, old(pool.at), old(pool.model), [], v, [], symbol) && [] in pool.at && pool.at[[]] == 0
  {
    hide *;
    ghost var m, at, iv, s: Name := pool.model, pool.at, dec.State(), [];
    ghost var es := ContextEvents(m, s, v);
    ContextFacts(pool, s, v);
    PoolKeys(pool);
    HeadFacts(pool, s);
    RootEventFacts(m, v);
    TuningFacts(s);
    AheadFacts(dec, if ended then [] else es + more);
    finished, value, symbol := false, 0, 0;
    var escapes, total := pool.symbols[0].escapes, pool.symbols[0].total;
    ghost var e := if ended then Event(0, escapes, total) else m[s].Slice(ROOT_TUNING, v);
    ReadFacts(iv, e, more, ended);
    var code := dec.Read(total);
    if code < escapes {
      dec.Decode(0, escapes, total, iv);
      finished := true;
      return;
    }
    var under, count;
    value, symbol, under, count := pool.Decode(s, {}, v, 0, code - escapes, SYMBOL_DELTA, SYMBOL_MINIMUM);
    dec.Decode(escapes + under, count, total, iv);
    AheadAfter(dec, iv, e, more, ended);
    pool.Adapt(m, s, v, {} + Unlinked(m, s, v), 0, count, SYMBOL_DELTA, SYMBOL_MINIMUM);
    VisitedFirst(pool, at, m, s, v, symbol);
  }

  lemma RootEventFacts(m: Model, v: Byte)
    requires Sound(m)
    ensures [] in m && TuningOf([]) == ROOT_TUNING && m[[]].escapes == 1 && m[[]].Total(ROOT_TUNING) <= 0xFF00 <= BOTTOM
    ensures AllValid(ContextEvents(m, [], v)) && ContextEvents(m, [], v) == [m[[]].Slice(ROOT_TUNING, v)]
    ensures Event(0, 1, m[[]].Total(ROOT_TUNING)).Valid() && m[[]].Slice(ROOT_TUNING, v).Valid()
    ensures m[[]].Slice(ROOT_TUNING, v) == Event(1 + (v * 1 + Below(m[[]].counts, v)), m[[]].counts[v] + 1, m[[]].Total(ROOT_TUNING))
    ensures 0 <= SUBCONTEXT_ORDER
  {
    assert BoundedIn(m, []);
    ContextEventsValid(m, [], v);
    SliceValid(m[[]], ROOT_TUNING, v);
  }

  // ---- the chain of contexts of one byte ----

  lemma FindStep(m: Model, s: Name, v: Byte)
    requires ChainIn(m, s) && Sound(m)
    ensures s in m && AllValid(ContextEvents(m, s, v))
    ensures Stops(m, s, v) ==> SymbolEvents(m, s, v) == ContextEvents(m, s, v) && StopAt(m, s, v) == s
    ensures !Stops(m, s, v) ==>
              && s != [] && ChainIn(m, s[1..]) && StopAt(m, s, v) == StopAt(m, s[1..], v)
              && SymbolEvents(m, s, v) == ContextEvents(m, s, v) + SymbolEvents(m, s[1..], v)
              && AllValid(SymbolEvents(m, s[1..], v))
    ensures if s == [] then Stops(m, s, v) else ChainIn(m, s[1..])
  {
    ContextEventsValid(m, s, v);
    if !Stops(m, s, v) {
      SymbolEventsValid(m, s[1..], v);
    }
  }

  // Walks down the chain to the context that holds the next symbol `v`, or finds in the root
  // that the packet has ended.
  method FindContext(pool: ContextPool, dec: RangeDecoder, ghost h: Name, ghost v: Byte, ghost more: seq<Event>, ghost ended: bool,
                     predicted: nat)
    returns (finished: bool, value: Byte, bottom: nat, context: nat)
    requires pool.Valid() && Sound(pool.model) && ChainIn(pool.model, h) && |h| <= SUBCONTEXT_ORDER && pool.nextSymbol < POOL_SIZE
    requires LinkedIn(pool.symbols[..], pool.at, pool.model, {}) && h in pool.at && predicted == pool.at[h]
    requires AllValid(more) && Ahead(dec, if ended then [] else SymbolEvents(pool.model, h, v) + more)
    modifies pool, pool.symbols, dec`low, dec`range, dec`code, dec`next, dec`ahead
    ensures finished == ended && (finished ==> pool.symbols.Length == POOL_SIZE)
    ensures !finished ==>
              var u := StopAt(old(pool.model), h, v);
              && value == v && Ahead(dec, more) && Visited(pool, old(pool.at), old(pool.model), u, v, [], bottom)
              && u in pool.at && context == pool.at[u]
  {
    hide *;
    ghost var m, at, s := pool.model, pool.at, h;
    var stops := false;
    value, bottom, context, finished := 0, 0, predicted, false;
    ChainHead(pool, s);
    while context != 0 && !stops
      invariant !stops ==> unchanged(pool) && unchanged(pool.symbols)
      invariant !stops ==> pool.Valid() && LinkedIn(pool.symbols[..], pool.at, pool.model, {}) && pool.model == m && pool.at == at
      invariant !stops ==> s in pool.at && context == pool.at[s] && s in pool.model && pool.nextSymbol < POOL_SIZE
      invariant !stops ==> (context == 0 <==> s == []) && ChainIn(m, s) && |s| <= SUBCONTEXT_ORDER
      invariant !stops && !ended ==> StopAt(m, s, v) == StopAt(m, h, v)
      invariant !stops ==> Ahead(dec, if ended then [] else SymbolEvents(m, s, v) + more)
      invariant stops ==> !ended && value == v && Ahead(dec, more) && Visited(pool, at, m, s, v, [], bottom)
      invariant stops ==> s == StopAt(m, h, v) && s in pool.at && context == pool.at[s]
      decreases !stops, |s|
    {
      FindStep(m, s, v);
      ghost var rest := if Stops(m, s, v) then more else SymbolEvents(m, s[1..], v) + more;
      RestValid(m, s, v, more);
      stops, value, bottom := DecodeContext(pool, dec, s, v, rest, ended, context);
      if !stops {
        ParentLinked(pool, s, {});
        context := pool.symbols[context].parent;
        s := s[1..];
        ChainHead(pool, s);
      }
    }
    if !stops {
      FindStep(m, [], v);
      finished, value, bottom := DecodeRoot(pool, dec, v, more, ended);
    }
  }

  lemma ChainHead(pool: ContextPool, s: Name)
    requires pool.Valid() && ChainIn(pool.model, s)
    ensures s in pool.model && s in pool.at && (pool.at[s] == 0 <==> s == []) && pool.symbols.Length == POOL_SIZE
  {
    PoolKeys(pool);
  }

  lemma RestValid(m: Model, s: Name, v: Byte, more: seq<Event>)
    requires ChainIn(m, s) && Sound(m) && AllValid(more)
    ensures var rest := if Stops(m, s, v) then more else SymbolEvents(m, s[1..], v) + more;
            AllValid(rest) && ContextEvents(m, s, v) + rest == SymbolEvents(m, s, v) + more
  {
    FindStep(m, s, v);
    if !Stops(m, s, v) {
      AllValidAppend(SymbolEvents(m, s[1..], v), more);
      ConcatAssociative(ContextEvents(m, s, v), SymbolEvents(m, s[1..], v), more);
    }
  }

  // One round of the loop that brings the longer contexts up to date: `value` is new to them.
  method PatchStep(pool: ContextPool, ghost h: Name, ghost s: Name, ghost pending: Name, ghost limit: nat,
                   first: bool, previous: nat, context: nat, value: Byte)
    returns (symbol: nat)
    requires OnChain(pool, h, value, s, pending, limit) && s in pool.model && s in pool.at && context == pool.at[s]
    requires s != [] && !Stops(pool.model, s, value) && pool.nextSymbol < POOL_SIZE
    requires first == (pending == []) && (!first ==> pending in pool.at && previous == pool.at[pending])
    modifies pool, pool.symbols
    ensures pool.Valid() && pool.model == Visit(old(pool.model), s, value) && s + [value] in pool.at && symbol == pool.at[s + [value]]
    ensures Extends(old(pool.at), pool.at)
    ensures h + [value] in pool.at && (first ==> pool.at[h + [value]] == symbol)
    ensures !first ==> h + [value] in old(pool.at) && pool.at[h + [value]] == old(pool.at[h + [value]])
    ensures OnChain(pool, h, value, s[1..], s + [value], limit) && context < pool.symbols.Length
    ensures s[1..] in pool.at && pool.symbols[context].parent == pool.at[s[1..]]
  {
    hide *;
    ghost var m, at := pool.model, pool.at;
    StepFacts(pool, h, value, s, pending, limit);
    TuningFacts(s);
    var under, count;
    ghost var exempt := Waiting(pending);
    symbol, under, count := pool.Encode(s, exempt, context, value, SUBCONTEXT_SYMBOL_DELTA, 0);
    pool.Adapt(m, s, value, exempt + Unlinked(m, s, value), context, count, SUBCONTEXT_SYMBOL_DELTA, 0);
    VisitedIntro(pool, at, m, s, value, pending, symbol);
    Join(pool, at, m, h, s, value, pending, limit, first, previous, symbol);
  }

  // After the symbol was found in the context at cell `context`, which has learned it, the
  // longer contexts learn it too.
  method PatchChain(pool: ContextPool, ghost at: Places, ghost m: Model, ghost h: Name, predicted: nat, context: nat, bottom: nat, value: Byte)
    returns (extended: nat)
    requires ChainIn(m, h) && ChainAt(at, m, h, value, h, [], POOL_SIZE) && Sound(m) && h in at && predicted == at[h]
    requires var u := StopAt(m, h, value);
      Visited(pool, at, m, u, value, [], bottom) && u in pool.at && context == pool.at[u]
    modifies pool, pool.symbols
    ensures pool.Valid() && pool.model == Learned(m, h, value) && LinkedIn(pool.symbols[..], pool.at, pool.model, {})
    ensures h + [value] in pool.at && extended == pool.at[h + [value]]
  {
    hide *;
    ghost var u := StopAt(m, h, value);
    ghost var limit := POOL_SIZE + |u| + 1;
    ghost var s: Name, pending: Name := h, [];
    var patch, first, previous: nat := predicted, true, 0;
    extended := bottom;
    PatchStart(pool, at, m, h, value, bottom, limit);
    while patch != context
      invariant OnChain(pool, h, value, s, pending, limit) && first == (pending == []) && s in pool.at && patch == pool.at[s]
      invariant !first ==> pending in pool.at && previous == pool.at[pending]
      invariant first ==> s == h
      invariant !first ==> h + [value] in pool.at && extended == pool.at[h + [value]]
      invariant u in pool.at && context == pool.at[u] && u + [value] in pool.at && bottom == pool.at[u + [value]]
      invariant ChainIn(pool.model, s) && StopAt(pool.model, s, value) == u
      invariant Patched(pool.model, s, u, value) == Learned(m, h, value)
      decreases |s|
    {
      StepFacts(pool, h, value, s, pending, limit);
      PatchNext(pool.model, s, u, value);
      ghost var before := pool.at;
      var symbol := PatchStep(pool, h, s, pending, limit, first, previous, patch, value);
      StillAt(before, pool.at, u);
      StillAt(before, pool.at, u + [value]);
      extended := if first then symbol else extended;
      first, previous := false, symbol;
      patch := pool.symbols[patch].parent;
      s, pending := s[1..], s + [value];
    }
    StepFacts(pool, h, value, s, pending, limit);
    PatchEnd(pool, h, value, s, pending, u, limit);
    if first {
      extended := bottom;
    } else {
      pool.Link(pending, Waiting(pending), previous, bottom);
    }
  }

  lemma StillAt(at: Places, at': Places, u: Name)
    requires Extends(at, at') && u in at
    ensures u in at' && at'[u] == at[u]
  {
  }

  lemma PatchStart(pool: ContextPool, at: Places, m: Model, h: Name, v: Byte, bottom: nat, limit: nat)
    requires ChainIn(m, h) && ChainAt(at, m, h, v, h, [], POOL_SIZE) && Sound(m) && h in at
    requires var u := StopAt(m, h, v); Visited(pool, at, m, u, v, [], bottom) && limit == POOL_SIZE + |u| + 1
    ensures h in pool.at && pool.at[h] == at[h] && OnChain(pool, h, v, h, [], limit)
    ensures var u := StopAt(m, h, v); u + [v] in pool.at && bottom == pool.at[u + [v]]
    ensures var u := StopAt(m, h, v);
      ChainIn(pool.model, h) && StopAt(pool.model, h, v) == u && Patched(pool.model, h, u, v) == Learned(m, h, v)
  {
    hide ContextPool.Valid, LinkedIn, Sound, Patched, Learned, ChainIn, StopAt, Context.Learn;
    var u := StopAt(m, h, v);
    DecoderOrder(m, h, v);
    StopStays(m, h, u, v);
    VisitKeys(m, u, v);
    NoneUnlinked(m, u, v);
    KnownSymbol(m, u, v);
    assert u != [] ==> pool.model.Keys == m.Keys;
    PatchOnChain(pool, h, v, limit);
  }

  lemma KnownSymbol(m: Model, u: Name, v: Byte)
    requires Sound(m) && u in m && |u| <= SUBCONTEXT_ORDER && Stops(m, u, v)
    ensures u != [] ==> u + [v] in m
  {
    assert PpmModel.Holds(m, u);
  }

  lemma PatchOnChain(pool: ContextPool, h: Name, v: Byte, limit: nat)
    requires pool.Valid() && ChainIn(pool.model, h) && h in pool.at && |h| <= SUBCONTEXT_ORDER && |pool.model| + |h| < limit
    requires LinkedIn(pool.symbols[..], pool.at, pool.model, {})
    ensures OnChain(pool, h, v, h, [], limit)
  {
  }

  lemma {:induction false} StopStays(m: Model, s: Name, u: Name, v: Byte)
    requires ChainIn(m, s) && u == StopAt(m, s, v) && Sound(m)
    ensures ChainIn(Visit(m, u, v), s) && StopAt(Visit(m, u, v), s, v) == u
    decreases |s|
  {
    ChainVisit(m, u, s, v);
    assert BoundedIn(m, u);
    LearnBounded(m[u], TuningOf(u), v);
    if !Stops(m, s, v) {
      StopStays(m, s[1..], u, v);
    }
  }

  lemma PatchNext(m: Model, s: Name, u: Name, v: Byte)
    requires ChainIn(m, s) && StopAt(m, s, v) == u
    ensures s in m && u in m
    ensures s != u ==>
              && s != [] && !Stops(m, s, v) && |s| > |u| && ChainIn(Visit(m, s, v), s[1..])
              && StopAt(Visit(m, s, v), s[1..], v) == u && Patched(m, s, u, v) == Patched(Visit(m, s, v), s[1..], u, v)
    ensures s == u ==> Patched(m, s, u, v) == m
  {
    if s != u {
      ChainVisit(m, s, s[1..], v);
      EventsAfterVisit(m, s, s[1..], v);
    }
  }

  lemma PatchEnd(pool: ContextPool, h: Name, v: Byte, s: Name, pending: Name, u: Name, limit: nat)
    requires OnChain(pool, h, v, s, pending, limit) && s in pool.at && u in pool.at && pool.at[s] == pool.at[u]
    requires ChainIn(pool.model, s) && StopAt(pool.model, s, v) == u
    ensures s == u && Patched(pool.model, s, u, v) == pool.model && Waiting(pending) - {pending} == {}
    ensures pending == [] ==> Waiting(pending) == {}
    ensures pending != [] ==> pending in pool.model && pending in pool.at && pending[1..] == u + [v]
  {
    assert Placed(pool.at, pool.nextSymbol);
    PatchNext(pool.model, s, u, v);
  }

  // ---- decompressing ----

  // One byte of the packet, or its end.
  method DecodeByte(pool: ContextPool, dec: RangeDecoder, ghost st: State, ghost rest: seq<Byte>, predicted: nat, order: nat)
    returns (finished: bool, value: Byte, predicted': nat, order': nat)
    requires Holding(pool, st, predicted, order) && st.Valid() && ChainIn(st.model, st.history) && Ahead(dec, Events(st, rest))
    modifies pool, pool.symbols, dec`low, dec`range, dec`code, dec`next, dec`ahead
    ensures finished == (rest == [])
    ensures !finished ==>
              && value == rest[0] && Next(st, value).Valid()
              && Holding(pool, Next(st, value), predicted', order') && Ahead(dec, Events(Next(st, value), rest[1..]))
  {
    hide *;
    ghost var v, ended := if rest == [] then 0 else rest[0], rest == [];
    HoldingFacts(pool, st, v, predicted, order);
    StateFacts(st);
    if !ended {
      EventsStep(st, rest);
    } else {
      NothingLeft(st, [], 0);
    }
    ghost var more := if ended then [] else Events(Next(st, v), rest[1..]);
    NoEvents();
    var bottom, context;
    ghost var at, m, h := pool.at, pool.model, st.history;
    finished, value, bottom, context := FindContext(pool, dec, h, v, more, ended, predicted);
    predicted', order' := 0, 0;
    if finished {
      return;
    }
    var extended := PatchChain(pool, at, m, h, predicted, context, bottom, value);
    predicted', order' := Advance(pool, st, value, extended, order);
  }

  lemma StateFacts(st: State)
    requires st.Valid()
    ensures Sound(st.model) && |st.history| <= SUBCONTEXT_ORDER && |st.model| < POOL_SIZE
  {
  }

  lemma NoEvents()
    ensures AllValid([])
  {
  }

  // Restores a packet from its compressed form; zero stands for failure, which means that it
  // does not fit.
  method Decompress(pool: ContextPool, data: seq<Byte>, out: array<Byte>, ghost packet: seq<Byte>) returns (n: nat)
    requires pool.symbols.Length == POOL_SIZE && pool.symbols as object != out
    requires data == Compressed(packet)
    modifies pool, pool.symbols, out
    ensures n == if |packet| > out.Length then 0 else |packet|
    ensures n > 0 ==> out[..n] == packet
  {
    hide *;
    n := 0;
    CompressedNonEmpty(packet);
    if |data| == 0 {
      return;
    }
    var dec := new RangeDecoder(data);
    pool.Reset();
    var predicted: nat, order: nat, finished: bool, value: Byte := 0, 0, false, 0;
    ghost var st, rest := InitialState(), packet;
    DecompressStart(pool, dec, packet);
    while true
      invariant n <= out.Length && n + |rest| == |packet| && rest == packet[n..] && out[..n] == packet[..n]
      invariant st.Valid() && Holding(pool, st, predicted, order) && Ahead(dec, Events(st, rest))
      decreases |rest|
    {
      HoldingFacts(pool, st, 0, predicted, order);
      finished, value, predicted, order := DecodeByte(pool, dec, st, rest, predicted, order);
      if finished {
        break;
      }
      if n >= out.Length {
        return 0;
      }
      out[n] := value;
      st, rest := Next(st, value), rest[1..];
      n := n + 1;
    }
  }

  // A packet goes over the wire: if its compressed form fits there and the packet fits at the
  // other end, what comes out is the packet.
  method RoundTrip(sender: ContextPool, receiver: ContextPool, buffers: seq<seq<Byte>>, wire: array<Byte>, out: array<Byte>)
    returns (sent: nat, n: nat)
    requires sender.symbols.Length == POOL_SIZE && receiver.symbols.Length == POOL_SIZE && wire != out
    requires {sender.symbols as object, receiver.symbols} !! {wire, out}
    requires forall i | 0 < i < |buffers| :: buffers[i] != []
    modifies sender, sender.symbols, receiver, receiver.symbols, wire, out
    ensures var packet := Flatten(buffers);
            && (sent > 0 <==> packet != [] && |Compressed(packet)| <= wire.Length)
            && (sent > 0 && |packet| <= out.Length ==> n == |packet| && out[..n] == packet)
            && (sent == 0 || |packet| > out.Length ==> n == 0)
  {
    hide *;
    ghost var packet := Flatten(buffers);
    SomeBuffer(buffers);
    CompressedNonEmpty(packet);
    n := 0;
    sent := Compress(sender, buffers, 1, wire);
    if sent > 0 {
      n := Decompress(receiver, wire[..sent], out, packet);
    }
  }

  lemma SomeBuffer(buffers: seq<seq<Byte>>)
    ensures Flatten(buffers) != [] ==> buffers != []
  {
  }

  lemma DecompressStart(pool: ContextPool, dec: RangeDecoder, packet: seq<Byte>)
    requires pool.Valid() && LinkedIn(pool.symbols[..], pool.at, pool.model, {}) && pool.model == InitialModel() && pool.at == map[[] := 0]
    requires dec.Valid() && dec.ahead == Compressed(packet) && dec.State() == FullInterval
    ensures InitialState().Valid() && Holding(pool, InitialState(), 0, 0) && Ahead(dec, Events(InitialState(), packet))
  {
    InitialValid();
  }

  // A packet that is not empty has a compressed form that is not.
  lemma CompressedNonEmpty(packet: seq<Byte>)
    ensures Compressed(packet) == [] <==> packet == []
  {
    InitialValid();
    if packet != [] {
      EventsStep(InitialState(), packet);
      assert Events(InitialState(), packet)[0] == RootContext().Slice(ROOT_TUNING, packet[0]);
      EmittedNonEmpty(FullInterval, Events(InitialState(), packet));
    }
  }

  // ---- the code itself is unambiguous ----

  // Two symbols whose slices hold the same unit are the same.
  lemma SlicesDisjoint(c: Context, t: Tuning, a: Byte, b: Byte, unit: int)
    requires c.Slice(t, a).under <= unit < c.Slice(t, a).under + c.Slice(t, a).count
    requires c.Slice(t, b).under <= unit < c.Slice(t, b).under + c.Slice(t, b).count
    ensures a == b
  {
    if a < b {
      SliceOrder(c, t, a, b);
    } else if b < a {
      SliceOrder(c, t, b, a);
    }
  }

  lemma SliceOrder(c: Context, t: Tuning, a: Byte, b: Byte)
    requires a < b
    ensures c.Slice(t, a).under + c.Slice(t, a).count <= c.Slice(t, b).under
  {
    BelowMonotone(c.counts, a + 1, b);
    MulMonotone(a + 1, b, t.minimum);
    assert (a + 1) * t.minimum == a * t.minimum + t.minimum;
  }

  // The bytes of a byte's events tell the byte, and what follows them.
  lemma {:induction false} SymbolDetermined(m: Model, s: Name, a: Byte, b: Byte, iv: Interval, moreA: seq<Event>, moreB: seq<Event>)
    requires Sound(m) && ChainIn(m, s) && iv.Ready() && AllValid(moreA) && AllValid(moreB)
    requires AllValid(SymbolEvents(m, s, a) + moreA) && AllValid(SymbolEvents(m, s, b) + moreB)
    requires Emitted(iv, SymbolEvents(m, s, a) + moreA) == Emitted(iv, SymbolEvents(m, s, b) + moreB)
    ensures a == b && AllValid(SymbolEvents(m, s, a))
    ensures Emitted(CodedAll(iv, SymbolEvents(m, s, a)).interval, moreA) == Emitted(CodedAll(iv, SymbolEvents(m, s, a)).interval, moreB)
    decreases |s|
  {
    hide Emitted, CodedAll, Context.Slice;
    FindStep(m, s, a);
    FindStep(m, s, b);
    RestValid(m, s, a, moreA);
    RestValid(m, s, b, moreB);
    var restA := if Stops(m, s, a) then moreA else SymbolEvents(m, s[1..], a) + moreA;
    var restB := if Stops(m, s, b) then moreB else SymbolEvents(m, s[1..], b) + moreB;
    var escapes := EscapeEvents(m[s]);
    if !Stops(m, s, a) && !Stops(m, s, b) {
      SameHead(iv, escapes, restA, restB);
      SymbolDetermined(m, s[1..], a, b, CodedAll(iv, escapes).interval, moreA, moreB);
      CodedAppend(iv, escapes, SymbolEvents(m, s[1..], a));
    } else {
      Distinguished(m, s, a, b, iv, restA, restB);
      SameHead(iv, ContextEvents(m, s, a), restA, restB);
    }
  }

  lemma SameHead(iv: Interval, es: seq<Event>, a: seq<Event>, b: seq<Event>)
    requires iv.Ready() && AllValid(es) && AllValid(a) && AllValid(b) && AllValid(es + a) && AllValid(es + b)
    requires Emitted(iv, es + a) == Emitted(iv, es + b)
    ensures Emitted(CodedAll(iv, es).interval, a) == Emitted(CodedAll(iv, es).interval, b)
  {
    EmittedAppend(iv, es, a);
    EmittedAppend(iv, es, b);
    var head := CodedAll(iv, es).bytes;
    assert Emitted(iv, es + a)[|head|..] == Emitted(CodedAll(iv, es).interval, a);
    assert Emitted(iv, es + b)[|head|..] == Emitted(CodedAll(iv, es).interval, b);
  }

  // In a context that holds one of two symbols, equal bytes mean that they are the same.
  lemma Distinguished(m: Model, s: Name, a: Byte, b: Byte, iv: Interval, restA: seq<Event>, restB: seq<Event>)
    requires Sound(m) && s in m && iv.Ready() && AllValid(restA) && AllValid(restB)
    requires AllValid(ContextEvents(m, s, a) + restA) && AllValid(ContextEvents(m, s, b) + restB)
    requires Stops(m, s, a) || Stops(m, s, b)
    requires Emitted(iv, ContextEvents(m, s, a) + restA) == Emitted(iv, ContextEvents(m, s, b) + restB)
    ensures a == b
  {
    var t := TuningOf(s);
    HeadEvent(m, s, a, b);
    var ea, eb := ContextEvents(m, s, a)[0], ContextEvents(m, s, b)[0];
    ReadsEvent(iv, ea, restA);
    ReadsEvent(iv, eb, restB);
    if Stops(m, s, a) && Stops(m, s, b) {
      SlicesDisjoint(m[s], t, a, b, UnitOf(iv, Window(Emitted(iv, [ea] + restA)), ea.total));
    }
  }

  lemma HeadEvent(m: Model, s: Name, a: Byte, b: Byte)
    requires Sound(m) && s in m && (Stops(m, s, a) || Stops(m, s, b))
    ensures |ContextEvents(m, s, a)| == 1 && |ContextEvents(m, s, b)| == 1
    ensures ContextEvents(m, s, a)[0].Valid() && ContextEvents(m, s, b)[0].Valid()
    ensures ContextEvents(m, s, a)[0].total == ContextEvents(m, s, b)[0].total == m[s].Total(TuningOf(s))
    ensures Stops(m, s, a) ==> ContextEvents(m, s, a)[0] == m[s].Slice(TuningOf(s), a) && m[s].Slice(TuningOf(s), a).under >= m[s].escapes
    ensures Stops(m, s, b) ==> ContextEvents(m, s, b)[0] == m[s].Slice(TuningOf(s), b) && m[s].Slice(TuningOf(s), b).under >= m[s].escapes
    ensures !Stops(m, s, a) ==> ContextEvents(m, s, a)[0].under == 0 && ContextEvents(m, s, a)[0].count == m[s].escapes
    ensures !Stops(m, s, b) ==> ContextEvents(m, s, b)[0].under == 0 && ContextEvents(m, s, b)[0].count == m[s].escapes
  {
    assert BoundedIn(m, s);
    ContextEventsValid(m, s, a);
    ContextEventsValid(m, s, b);
    var v := if Stops(m, s, a) then a else b;
    BelowMonotone(m[s].counts, v + 1, 0x100);
    if Stops(m, s, a) {
      SliceValid(m[s], TuningOf(s), a);
    }
    if Stops(m, s, b) {
      SliceValid(m[s], TuningOf(s), b);
    }
  }

  // The end of the packet cannot be taken for a byte.
  lemma {:induction false} EndDetermined(m: Model, s: Name, b: Byte, iv: Interval, more: seq<Event>)
    requires Sound(m) && ChainIn(m, s) && iv.Ready() && AllValid(more) && AllValid(SymbolEvents(m, s, b) + more)
    ensures RangeArithmetic.Flush(iv.low) != Emitted(iv, SymbolEvents(m, s, b) + more)
    decreases |s|
  {
    if RangeArithmetic.Flush(iv.low) == Emitted(iv, SymbolEvents(m, s, b) + more) {
      FindStep(m, s, b);
      RestValid(m, s, b, more);
      var rest := if Stops(m, s, b) then more else SymbolEvents(m, s[1..], b) + more;
      if ContextEvents(m, s, b) == [] {
        assert [] + rest == rest;
        EndDetermined(m, s[1..], b, iv, more);
      } else {
        EndInContext(m, s, b, iv, rest);
        var e := ContextEvents(m, s, b)[0];
        EndDetermined(m, s[1..], b, Coded(iv, e).interval, more);
      }
    }
  }

  // An event that leads to the flushed bottom of the interval is an escape, and leads there
  // again.
  lemma EndInContext(m: Model, s: Name, b: Byte, iv: Interval, rest: seq<Event>)
    requires Sound(m) && s in m && iv.Ready() && AllValid(rest) && ContextEvents(m, s, b) != []
    requires AllValid(ContextEvents(m, s, b) + rest)
    requires RangeArithmetic.Flush(iv.low) == Emitted(iv, ContextEvents(m, s, b) + rest)
    ensures !Stops(m, s, b)
    ensures var e := ContextEvents(m, s, b)[0]; e.Valid() && RangeArithmetic.Flush(Coded(iv, e).interval.low) == Emitted(Coded(iv, e).interval, rest)
  {
    assert BoundedIn(m, s);
    ContextEventsValid(m, s, b);
    var e := ContextEvents(m, s, b)[0];
    ReadsEvent(iv, e, rest);
    ReadsEnd(iv, e.total);
    if Stops(m, s, b) {
      BelowMonotone(m[s].counts, b + 1, 0x100);
      SliceValid(m[s], TuningOf(s), b);
    } else {
      EscapesAtEnd(iv, e);
    }
  }

  // No two packets have the same compressed form.
  lemma CompressedInjective(a: seq<Byte>, b: seq<Byte>)
    requires Compressed(a) == Compressed(b)
    ensures a == b
  {
    InitialValid();
    EventsInjective(InitialState(), a, b, FullInterval);
  }

  lemma {:induction false} EventsInjective(st: State, a: seq<Byte>, b: seq<Byte>, iv: Interval)
    requires st.Valid() && iv.Ready() && Emitted(iv, Events(st, a)) == Emitted(iv, Events(st, b))
    ensures a == b
    decreases |a|
  {
    hide SymbolEvents, Learned, Next;
    StateFacts(st);
    if a != [] {
      EventsStep(st, a);
    }
    if b != [] {
      EventsStep(st, b);
    }
    if a != [] && b != [] {
      var moreA, moreB := Events(Next(st, a[0]), a[1..]), Events(Next(st, b[0]), b[1..]);
      SymbolDetermined(st.model, st.history, a[0], b[0], iv, moreA, moreB);
      EventsInjective(Next(st, a[0]), a[1..], b[1..], CodedAll(iv, SymbolEvents(st.model, st.history, a[0])).interval);
    } else if a != [] {
      EndDetermined(st.model, st.history, a[0], iv, Events(Next(st, a[0]), a[1..]));
    } else if b != [] {
      EndDetermined(st.model, st.history, b[0], iv, Events(Next(st, b[0]), b[1..]));
    }
  }
}
