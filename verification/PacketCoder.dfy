// ENet's packet compressor: the loops that drive the range coder with the symbol pool.

module PacketCoder {
  import opened Words
  import opened RangeArithmetic
  import opened FrequencyModel
  import opened PpmModel
  import opened PoolLayout
  import opened ContextPool
  import opened RangeCoder

  // The pool holds the model of `st`, and `predicted` is the head of its current context.
  ghost predicate Holding(pool: ContextPool, st: State, predicted: nat, order: nat)
    reads pool, pool.symbols
  {
    && pool.Valid() && LinkedIn(pool.symbols[..], pool.at, pool.model, {})
    && st.Valid() && pool.model == st.model && order == |st.history|
    && st.history in pool.at && predicted == pool.at[st.history]
  }

  // ---- one context ----

  // Codes `value` in context `s`: its slice if the context holds it, an escape if it does not
  // but holds others. The context learns it either way.
  method EncodeContext(pool: ContextPool, enc: RangeEncoder, ghost s: Name, ghost exempt: set<Name>,
                       context: nat, value: Byte, delta: Byte, minimum: Byte)
    returns (ok: bool, symbol: nat, stops: bool)
    requires pool.Valid() && pool.nextSymbol < POOL_SIZE && s in pool.model && |s| <= SUBCONTEXT_ORDER
    requires s in pool.at && context == pool.at[s]
    requires delta == TuningOf(s).delta && minimum == TuningOf(s).minimum
    requires enc.Valid() && enc.State().Ready() && enc.length <= enc.out.Length && |enc.Bytes()| == enc.length
    requires pool.symbols as object != enc.out
    modifies pool, pool.symbols, enc`low, enc`range, enc`length, enc.out
    ensures stops == Stops(old(pool.model), s, value)
    ensures EncoderDid(enc, old(enc.State()), old(enc.length), old(enc.Bytes()), ContextEvents(old(pool.model), s, value), ok)
    ensures ok ==> pool.Valid() && pool.model == Visit(old(pool.model), s, value) && Extends(old(pool.at), pool.at)
    ensures ok ==> s + [value] in pool.at && symbol == pool.at[s + [value]] && s in pool.at && pool.at[s] == context
    ensures ok && old(LinkedIn(pool.symbols[..], pool.at, pool.model, exempt)) ==>
              LinkedIn(pool.symbols[..], pool.at, pool.model, exempt + Unlinked(old(pool.model), s, value))
  {
    hide *;
    ghost var m, iv := pool.model, enc.State();
    ContextFacts(pool, s, value);
    EventFacts(m, s, value, iv);
    var under, count;
    symbol, under, count := pool.Encode(s, exempt, context, value, delta, minimum);
    pool.UncountedFacts(m, s);
    var escapes, total := pool.symbols[context].escapes, pool.symbols[context].total;
    stops := count > 0;
    ok := true;
    if count > 0 {
      ok := enc.Encode(escapes + under, count, total);
    } else if escapes > 0 && escapes < total {
      ok := enc.Encode(0, escapes, total);
    }
    EncoderDidIntro(enc, iv, old(enc.length), old(enc.Bytes()), ContextEvents(m, s, value), ok);
    if ok {
      pool.Adapt(m, s, value, exempt + Unlinked(m, s, value), context, count, delta, minimum);
    }
  }

  lemma ContextFacts(pool: ContextPool, s: Name, v: Byte)
    requires pool.Valid() && s in pool.model
    ensures Sound(pool.model) && pool.symbols.Length == POOL_SIZE
  {
  }

  // The events of one context, spelled out.
  lemma EventFacts(m: Model, s: Name, v: Byte, iv: Interval)
    requires Sound(m) && s in m && iv.Ready()
    ensures AllValid(ContextEvents(m, s, v))
    ensures Stops(m, s, v) <==> m[s].counts[v] + TuningOf(s).minimum > 0
    ensures m[s].Total(TuningOf(s)) <= 0xFFFF
    ensures Stops(m, s, v) ==>
              var e := Event(m[s].escapes + (v * TuningOf(s).minimum + Below(m[s].counts, v)), m[s].counts[v] + TuningOf(s).minimum, m[s].Total(TuningOf(s)));
              e.Valid() && e.under <= 0xFFFF && CodedAll(iv, ContextEvents(m, s, v)) == Coded(iv, e)
    ensures !Stops(m, s, v) && 0 < m[s].escapes < m[s].Total(TuningOf(s)) ==>
              var e := Event(0, m[s].escapes, m[s].Total(TuningOf(s)));
              e.Valid() && CodedAll(iv, ContextEvents(m, s, v)) == Coded(iv, e)
    ensures !Stops(m, s, v) && !(0 < m[s].escapes < m[s].Total(TuningOf(s))) ==> CodedAll(iv, ContextEvents(m, s, v)) == Settling([], iv)
  {
    hide Context.Slice, Context.Total, Context.Bounded, Coded, CodedAll, Event.Valid, Interval.Ready;
    ContextEventsValid(m, s, v);
    TotalFits(m, s);
    if Stops(m, s, v) {
      SliceFacts(m[s], TuningOf(s), v);
      CodedOne(iv, m[s].Slice(TuningOf(s), v));
    } else {
      assert s != [];
      NothingCoded(iv);
      if 0 < m[s].escapes < m[s].Total(SUB_TUNING) {
        assert m[s].EscapeSlice(SUB_TUNING) in ContextEvents(m, s, v);
        CodedOne(iv, m[s].EscapeSlice(SUB_TUNING));
      }
    }
  }

  lemma TotalFits(m: Model, s: Name)
    requires Sound(m) && s in m
    ensures m[s].Total(TuningOf(s)) <= 0xFFFF && m[s].Bounded(TuningOf(s)) && TuningOf(s).minimum <= 1
  {
    assert BoundedIn(m, s);
  }

  lemma SliceFacts(c: Context, t: Tuning, v: Byte)
    requires c.Bounded(t) && t.minimum <= 1 && 0 < c.counts[v] + t.minimum
    ensures c.Slice(t, v) == Event(c.escapes + (v * t.minimum + Below(c.counts, v)), c.counts[v] + t.minimum, c.Total(t))
    ensures c.Slice(t, v).Valid() && c.escapes + (v * t.minimum + Below(c.counts, v)) <= 0xFFFF
  {
    SliceValid(c, t, v);
  }

  lemma NothingCoded(iv: Interval)
    requires iv.Ready()
    ensures CodedAll(iv, []) == Settling([], iv)
  {
  }

  lemma EncoderDidIntro(enc: RangeEncoder, iv: Interval, length: nat, bytes: seq<Byte>, events: seq<Event>, ok: bool)
    requires iv.Ready() && AllValid(events)
    requires ok <==> length + |CodedAll(iv, events).bytes| <= enc.out.Length
    requires ok ==> enc.Valid() && enc.State() == CodedAll(iv, events).interval && enc.Bytes() == bytes + CodedAll(iv, events).bytes
    requires |bytes| == length
    ensures EncoderDid(enc, iv, length, bytes, events, ok)
  {
    if ok {
      assert |enc.Bytes()| == enc.length;
    }
  }

  // The encoder wrote exactly the bytes of `events`, or failed because they do not fit.
  ghost predicate EncoderDid(enc: RangeEncoder, iv: Interval, length: nat, bytes: seq<Byte>, events: seq<Event>, ok: bool)
    reads enc, enc.out
  {
    && iv.Ready() && AllValid(events) && |bytes| == length
    && (ok <==> length + |CodedAll(iv, events).bytes| <= enc.out.Length)
    && (ok ==> enc.Valid() && enc.State() == CodedAll(iv, events).interval && enc.Bytes() == bytes + CodedAll(iv, events).bytes
               && enc.length == length + |CodedAll(iv, events).bytes|)
  }

  // ---- the chain of contexts of one byte ----

  // The coding of `v` after history `h` has come to context `s`; the symbol of the context
  // before it, if there was one, still waits for its link.
  ghost predicate ChainAt(at: Places, m: Model, h: Name, v: Byte, s: Name, pending: Name, limit: nat) {
    && ChainIn(m, s) && s in at && |s| <= |h| <= SUBCONTEXT_ORDER && |m| + |s| < limit
    && (if pending == [] then s == h
        else pending in at && pending in m && pending[1..] == s + [v] && h + [v] in at)
  }

  ghost function Waiting(pending: Name): set<Name> {
    if pending == [] then {} else {pending}
  }

  ghost predicate OnChain(pool: ContextPool, h: Name, v: Byte, s: Name, pending: Name, limit: nat)
    reads pool, pool.symbols
  {
    pool.Valid() && ChainAt(pool.at, pool.model, h, v, s, pending, limit)
    && LinkedIn(pool.symbols[..], pool.at, pool.model, Waiting(pending))
  }

  // Context `s` has learned `v`, whose symbol there is `symbol`.
  ghost predicate Visited(pool: ContextPool, at: Places, m: Model, s: Name, v: Byte, pending: Name, symbol: nat)
    reads pool, pool.symbols
  {
    && pool.Valid() && s in m && pool.model == Visit(m, s, v) && Extends(at, pool.at)
    && LinkedIn(pool.symbols[..], pool.at, pool.model, Waiting(pending) + Unlinked(m, s, v))
    && s + [v] in pool.at && symbol == pool.at[s + [v]]
  }

  // Sets the link of the waiting symbol, and with it the byte's first symbol is final.
  method Join(pool: ContextPool, ghost at: Places, ghost m: Model, ghost h: Name, ghost s: Name, ghost v: Byte,
              ghost pending: Name, ghost limit: nat, first: bool, previous: nat, symbol: nat)
    requires Sound(m) && ChainAt(at, m, h, v, s, pending, limit) && Visited(pool, at, m, s, v, pending, symbol)
    requires first == (pending == []) && (!first ==> previous == at[pending])
    modifies pool.symbols
    ensures pool.Valid() && h + [v] in pool.at && Extends(at, pool.at)
    ensures pool.at[h + [v]] == if first then symbol else at[h + [v]]
    ensures Stops(m, s, v) ==> LinkedIn(pool.symbols[..], pool.at, pool.model, {})
    ensures !Stops(m, s, v) ==>
              && s != [] && OnChain(pool, h, v, s[1..], s + [v], limit) && s in pool.at && pool.at[s] < pool.symbols.Length
              && s[1..] in pool.at && pool.symbols[pool.at[s]].parent == pool.at[s[1..]]
  {
    hide *;
    JoinFacts(pool, at, m, h, v, s, pending, limit, symbol);
    if !first {
      pool.Link(pending, Waiting(pending) + Unlinked(m, s, v), previous, symbol);
    }
    JoinDone(pool, at, m, h, v, s, pending, limit);
  }

  lemma JoinFacts(pool: ContextPool, at: Places, m: Model, h: Name, v: Byte, s: Name, pending: Name, limit: nat, symbol: nat)
    requires Sound(m) && ChainAt(at, m, h, v, s, pending, limit) && Visited(pool, at, m, s, v, pending, symbol)
    ensures pool.Valid() && Extends(at, pool.at) && s in m && pool.model == Visit(m, s, v)
    ensures LinkedIn(pool.symbols[..], pool.at, pool.model, Waiting(pending) + Unlinked(m, s, v))
    ensures h + [v] in pool.at && |s| <= SUBCONTEXT_ORDER
    ensures if pending == [] then pool.at[h + [v]] == symbol && Waiting(pending) + Unlinked(m, s, v) == Unlinked(m, s, v)
            else
              && h + [v] in at && pool.at[h + [v]] == at[h + [v]]
              && pending in pool.model && pending in pool.at && pending in at && pool.at[pending] == at[pending]
              && pending[1..] in pool.at && symbol == pool.at[pending[1..]]
              && Waiting(pending) + Unlinked(m, s, v) - {pending} == Unlinked(m, s, v)
  {
    hide Sound, TreeAt, ContextIn, ChainIn, Context.Learn, TotalIn, LinkedIn, ContextPool.Valid, Placed;
    PoolKeys(pool);
    VisitKeys(m, s, v);
    assert pending != [] ==> |pending| == |s| + 2;
  }

  lemma JoinDone(pool: ContextPool, at: Places, m: Model, h: Name, v: Byte, s: Name, pending: Name, limit: nat)
    requires pool.Valid() && s in m && pool.model == Visit(m, s, v) && Extends(at, pool.at)
    requires Sound(m) && ChainAt(at, m, h, v, s, pending, limit) && h + [v] in pool.at && |s| <= SUBCONTEXT_ORDER
    requires LinkedIn(pool.symbols[..], pool.at, pool.model, Unlinked(m, s, v))
    ensures Stops(m, s, v) ==> LinkedIn(pool.symbols[..], pool.at, pool.model, {})
    ensures !Stops(m, s, v) ==>
              && s != [] && OnChain(pool, h, v, s[1..], s + [v], limit) && s in pool.at && pool.at[s] < pool.symbols.Length
              && s[1..] in pool.at && pool.symbols[pool.at[s]].parent == pool.at[s[1..]]
  {
    hide *;
    PoolKeys(pool);
    if Stops(m, s, v) {
      NoneUnlinked(m, s, v);
    } else {
      NextOnChain(at, pool.at, m, h, v, s, pending, limit);
      ParentLinked(pool, s, Unlinked(m, s, v));
      OnChainIntro(pool, h, v, s[1..], s + [v], limit);
    }
  }

  lemma OnChainIntro(pool: ContextPool, h: Name, v: Byte, s: Name, pending: Name, limit: nat)
    requires pool.Valid() && ChainAt(pool.at, pool.model, h, v, s, pending, limit)
    requires LinkedIn(pool.symbols[..], pool.at, pool.model, Waiting(pending))
    ensures OnChain(pool, h, v, s, pending, limit)
  {
  }

  lemma NoneUnlinked(m: Model, s: Name, v: Byte)
    requires Sound(m) && s in m && |s| <= SUBCONTEXT_ORDER && Stops(m, s, v)
    ensures Unlinked(m, s, v) == {}
  {
    assert PpmModel.Holds(m, s);
  }

  lemma NextOnChain(at: Places, at': Places, m: Model, h: Name, v: Byte, s: Name, pending: Name, limit: nat)
    requires Sound(m) && ChainAt(at, m, h, v, s, pending, limit) && s in m && !Stops(m, s, v)
    requires at'.Keys == Visit(m, s, v).Keys && Extends(at, at') && h + [v] in at'
    ensures ChainAt(at', Visit(m, s, v), h, v, s[1..], s + [v], limit) && s != [] && s in Visit(m, s, v)
    ensures Unlinked(m, s, v) == {s + [v]} == Waiting(s + [v]) && s !in Unlinked(m, s, v)
  {
    hide Context.Learn;
    VisitKeys(m, s, v);
    ChainVisit(m, s, s[1..], v);
    assert PpmModel.Holds(m, s);
    assert (s + [v])[1..] == s[1..] + [v];
    hide Visit, Sound, PpmModel.Holds;
  }

  lemma PoolKeys(pool: ContextPool)
    requires pool.Valid()
    ensures pool.at.Keys == pool.model.Keys && |pool.model| == pool.nextSymbol && pool.symbols.Length == POOL_SIZE
    ensures forall s <- pool.at :: pool.at[s] < pool.nextSymbol
    ensures [] in pool.at && pool.at[[]] == 0
    ensures forall s <- pool.at :: pool.at[s] == 0 ==> s == []
  {
  }

  lemma ParentLinked(pool: ContextPool, s: Name, exempt: set<Name>)
    requires pool.Valid() && LinkedIn(pool.symbols[..], pool.at, pool.model, exempt) && s in pool.model && s !in exempt && s != []
    ensures s in pool.at && pool.at[s] < pool.symbols.Length && s[1..] in pool.at
    ensures pool.symbols[pool.at[s]].parent == pool.at[s[1..]]
  {
    assert ParentAt(pool.symbols[..], pool.at, pool.model, s);
  }

  // ---- compressing ----

  // One round of the encoder's walk down the chain.
  method EncodeStep(pool: ContextPool, enc: RangeEncoder, ghost h: Name, ghost s: Name, ghost pending: Name,
                    first: bool, previous: nat, context: nat, value: Byte, delta: Byte, minimum: Byte)
    returns (ok: bool, symbol: nat, stops: bool)
    requires OnChain(pool, h, value, s, pending, POOL_SIZE) && s in pool.model && s in pool.at && context == pool.at[s]
    requires first == (pending == []) && (!first ==> pending in pool.at && previous == pool.at[pending])
    requires delta == TuningOf(s).delta && minimum == TuningOf(s).minimum
    requires enc.Valid() && enc.State().Ready() && enc.length <= enc.out.Length && |enc.Bytes()| == enc.length
    requires pool.symbols as object != enc.out
    modifies pool, pool.symbols, enc`low, enc`range, enc`length, enc.out
    ensures stops == Stops(old(pool.model), s, value)
    ensures EncoderDid(enc, old(enc.State()), old(enc.length), old(enc.Bytes()), ContextEvents(old(pool.model), s, value), ok)
    ensures ok ==> pool.Valid() && pool.model == Visit(old(pool.model), s, value) && s + [value] in pool.at && symbol == pool.at[s + [value]]
    ensures ok ==> h + [value] in pool.at && (first ==> pool.at[h + [value]] == symbol)
    ensures ok && !first ==> h + [value] in old(pool.at) && pool.at[h + [value]] == old(pool.at[h + [value]])
    ensures ok && stops ==> LinkedIn(pool.symbols[..], pool.at, pool.model, {})
    ensures ok && !stops ==>
              && OnChain(pool, h, value, s[1..], s + [value], POOL_SIZE) && s != [] && context < pool.symbols.Length
              && s[1..] in pool.at && pool.symbols[context].parent == pool.at[s[1..]]
  {
    hide *;
    ghost var m, at := pool.model, pool.at;
    StepFacts(pool, h, value, s, pending, POOL_SIZE);
    ok, symbol, stops := EncodeContext(pool, enc, s, Waiting(pending), context, value, delta, minimum);
    if ok {
      VisitedIntro(pool, at, m, s, value, pending, symbol);
      Join(pool, at, m, h, s, value, pending, POOL_SIZE, first, previous, symbol);
    }
  }

  lemma StepFacts(pool: ContextPool, h: Name, v: Byte, s: Name, pending: Name, limit: nat)
    requires OnChain(pool, h, v, s, pending, limit)
    ensures pool.Valid() && Sound(pool.model) && ChainAt(pool.at, pool.model, h, v, s, pending, limit)
    ensures LinkedIn(pool.symbols[..], pool.at, pool.model, Waiting(pending))
    ensures s in pool.model && |s| <= SUBCONTEXT_ORDER && pool.nextSymbol + |s| < limit
    ensures pending == [] ==> s == h
    ensures pending != [] ==> h + [v] in pool.at
    ensures s in pool.at && pool.at[s] < pool.symbols.Length && (pool.at[s] == 0 <==> s == [])
  {
    PoolKeys(pool);
  }

  lemma VisitedIntro(pool: ContextPool, at: Places, m: Model, s: Name, v: Byte, pending: Name, symbol: nat)
    requires pool.Valid() && s in m && pool.model == Visit(m, s, v) && Extends(at, pool.at)
    requires LinkedIn(pool.symbols[..], pool.at, pool.model, Waiting(pending) + Unlinked(m, s, v))
    requires s + [v] in pool.at && symbol == pool.at[s + [v]]
    ensures Visited(pool, at, m, s, v, pending, symbol)
  {
  }

  // What the encoder did for several events in a row.
  lemma DidAppend(enc: RangeEncoder, iv: Interval, length: nat, bytes: seq<Byte>, done: seq<Event>, es: seq<Event>, ok: bool)
    requires iv.Ready() && AllValid(done) && AllValid(es) && |bytes| == length
    requires var c := CodedAll(iv, done); EncoderDid(enc, c.interval, length + |c.bytes|, bytes + c.bytes, es, ok)
    ensures EncoderDid(enc, iv, length, bytes, done + es, ok)
  {
    hide AllValid, CodedAll, Interval.Ready, RangeEncoder.Valid, RangeEncoder.State, RangeEncoder.Bytes;
    AllValidAppend(done, es);
    CodedAppend(iv, done, es);
    var c := CodedAll(iv, done);
    var d := CodedAll(c.interval, es);
    ConcatAssociative(bytes, c.bytes, d.bytes);
  }

  // When some of the events do not fit, the whole does not.
  lemma DidNotFit(enc: RangeEncoder, iv: Interval, length: nat, bytes: seq<Byte>, done: seq<Event>, rest: seq<Event>)
    requires iv.Ready() && AllValid(done) && AllValid(rest) && EncoderDid(enc, iv, length, bytes, done, false)
    ensures EncoderDid(enc, iv, length, bytes, done + rest, false)
  {
    hide AllValid, CodedAll, Interval.Ready, RangeEncoder.Valid, RangeEncoder.State, RangeEncoder.Bytes;
    AllValidAppend(done, rest);
    CodedAppend(iv, done, rest);
  }

  // One byte: the walk down the chain until a context holds it, or down to the root.
  method EncodeChain(pool: ContextPool, enc: RangeEncoder, ghost h: Name, predicted: nat, value: Byte)
    returns (ok: bool, extended: nat)
    requires pool.Valid() && ChainIn(pool.model, h) && ChainAt(pool.at, pool.model, h, value, h, [], POOL_SIZE) && h in pool.at && predicted == pool.at[h]
    requires LinkedIn(pool.symbols[..], pool.at, pool.model, {})
    requires enc.Valid() && enc.State().Ready() && enc.length <= enc.out.Length && |enc.Bytes()| == enc.length
    requires pool.symbols as object != enc.out
    modifies pool, pool.symbols, enc`low, enc`range, enc`length, enc.out
    ensures EncoderDid(enc, old(enc.State()), old(enc.length), old(enc.Bytes()), SymbolEvents(old(pool.model), h, value), ok)
    ensures ok ==> pool.Valid() && pool.model == Learned(old(pool.model), h, value)
    ensures ok ==> LinkedIn(pool.symbols[..], pool.at, pool.model, {}) && h + [value] in pool.at && extended == pool.at[h + [value]]
  {
    hide *;
    ghost var m0, iv, length, bytes := pool.model, enc.State(), enc.length, enc.Bytes();
    ghost var s: Name, pending: Name, done: seq<Event> := h, [], [];
    ghost var all := SymbolEvents(m0, h, value);
    var context: nat, first, previous: nat, stops := predicted, true, 0, false;
    ok, extended := true, predicted;
    ChainBegin(pool, h, value, POOL_SIZE);
    NothingDone(enc, all);
    StepFacts(pool, h, value, h, [], POOL_SIZE);
    while !stops
      invariant EncoderDid(enc, iv, length, bytes, done, true) && AllValid(done) && iv.Ready()
      invariant stops ==> done == all && pool.Valid() && pool.model == Learned(m0, h, value)
      invariant stops ==> LinkedIn(pool.symbols[..], pool.at, pool.model, {})
      invariant !stops ==> OnChain(pool, h, value, s, pending, POOL_SIZE) && s in pool.at && context == pool.at[s] && first == (pending == [])
      invariant !stops && !first ==> pending in pool.at && previous == pool.at[pending]
      invariant !stops ==> ChainIn(pool.model, s) && all == done + SymbolEvents(pool.model, s, value)
      invariant !stops ==> Learned(m0, h, value) == Learned(pool.model, s, value)
      invariant first ==> !stops && s == h
      invariant !first ==> h + [value] in pool.at && extended == pool.at[h + [value]]
      decreases !stops, |s|
    {
      ghost var m := pool.model;
      StepFacts(pool, h, value, s, pending, POOL_SIZE);
      ChainStep(m, s, value);
      ContextEventsValid(m, s, value);
      EncoderReady(enc, iv, length, bytes, done);
      TuningFacts(s);

      var symbol;
      if context != 0 {
        ok, symbol, stops := EncodeStep(pool, enc, h, s, pending, first, previous, context, value,
                                        SUBCONTEXT_SYMBOL_DELTA, 0);
      } else {
        ok, symbol, stops := EncodeStep(pool, enc, h, s, pending, first, previous, context, value,
                                        SYMBOL_DELTA, SYMBOL_MINIMUM);
      }
      DidAppend(enc, iv, length, bytes, done, ContextEvents(m, s, value), ok);
      AllValidAppend(done, ContextEvents(m, s, value));
      if !ok {
        if !stops {
          VisitSound(m, s, value);
          SymbolEventsValid(Visit(m, s, value), s[1..], value);
          ConcatAssociative(done, ContextEvents(m, s, value), SymbolEvents(Visit(m, s, value), s[1..], value));
          DidNotFit(enc, iv, length, bytes, done + ContextEvents(m, s, value), SymbolEvents(Visit(m, s, value), s[1..], value));
        }
        return;
      }
      ConcatAssociative(done, ContextEvents(m, s, value), if stops then [] else SymbolEvents(Visit(m, s, value), s[1..], value));
      done := done + ContextEvents(m, s, value);
      extended := if first then symbol else extended;
      first, previous := false, symbol;
      if !stops {
        context := pool.symbols[context].parent;
        s, pending := s[1..], s + [value];
      }
    }
  }

  lemma NothingDone(enc: RangeEncoder, all: seq<Event>)
    requires enc.Valid() && enc.State().Ready() && enc.length <= enc.out.Length && |enc.Bytes()| == enc.length
    ensures AllValid([]) && EncoderDid(enc, enc.State(), enc.length, enc.Bytes(), [], true) && [] + all == all
  {
  }

  lemma EncoderReady(enc: RangeEncoder, iv: Interval, length: nat, bytes: seq<Byte>, done: seq<Event>)
    requires EncoderDid(enc, iv, length, bytes, done, true)
    ensures enc.Valid() && enc.State().Ready() && enc.length <= enc.out.Length && |enc.Bytes()| == enc.length
    ensures AllValid(done) && iv.Ready()
    ensures var c := CodedAll(iv, done);
            enc.State() == c.interval && enc.low == c.interval.low && enc.length == length + |c.bytes| && enc.Bytes() == bytes + c.bytes
  {
  }

  lemma TuningFacts(s: Name)
    ensures TuningOf(s) == if s == [] then Tuning(SYMBOL_DELTA, 0, SYMBOL_MINIMUM) else Tuning(SUBCONTEXT_SYMBOL_DELTA, SUBCONTEXT_ESCAPE_DELTA, 0)
    ensures SYMBOL_DELTA == 3 && SYMBOL_MINIMUM == 1 && SUBCONTEXT_SYMBOL_DELTA == 2
  {
  }

  lemma ChainBegin(pool: ContextPool, h: Name, v: Byte, limit: nat)
    requires pool.Valid() && ChainAt(pool.at, pool.model, h, v, h, [], limit) && LinkedIn(pool.symbols[..], pool.at, pool.model, {})
    ensures OnChain(pool, h, v, h, [], limit)
  {
  }

  // Moves on to the context of the next byte, and empties a nearly full pool.
  method Advance(pool: ContextPool, ghost st: State, ghost v: Byte, extended: nat, order: nat)
    returns (predicted: nat, order': nat)
    requires st.Valid() && ChainIn(st.model, st.history) && order == |st.history|
    requires pool.Valid() && LinkedIn(pool.symbols[..], pool.at, pool.model, {}) && pool.model == Learned(st.model, st.history, v)
    requires st.history + [v] in pool.at && extended == pool.at[st.history + [v]]
    modifies pool, pool.symbols
    ensures Holding(pool, Next(st, v), predicted, order')
  {
    hide Sound, LinkedIn, LaidOut, Learned, ChainIn, TotalIn;
    AdvanceFacts(pool, st, v, extended);
    predicted, order' := extended, order;
    if order >= SUBCONTEXT_ORDER {
      predicted := pool.symbols[extended].parent;
    } else {
      order' := order + 1;
    }
    if pool.nextSymbol >= POOL_SIZE - SUBCONTEXT_ORDER {
      pool.Reset();
      predicted, order' := 0, 0;
    }
  }

  lemma AdvanceFacts(pool: ContextPool, st: State, v: Byte, extended: nat)
    requires st.Valid() && ChainIn(st.model, st.history)
    requires pool.Valid() && LinkedIn(pool.symbols[..], pool.at, pool.model, {}) && pool.model == Learned(st.model, st.history, v)
    requires st.history + [v] in pool.at && extended == pool.at[st.history + [v]]
    ensures extended < pool.symbols.Length == POOL_SIZE && |pool.model| == pool.nextSymbol && Next(st, v).Valid()
    ensures Extend(st.history, v) in pool.at
    ensures pool.at[Extend(st.history, v)] == if |st.history| >= SUBCONTEXT_ORDER then pool.symbols[extended].parent else extended
    ensures |Extend(st.history, v)| == if |st.history| >= SUBCONTEXT_ORDER then |st.history| else |st.history| + 1
  {
    hide Sound, LinkedIn, LaidOut, Learned, ChainIn, TotalIn, ContextPool.Valid, Next, WellFormed;
    PoolKeys(pool);
    NextValid(st, v);
    if |st.history| >= SUBCONTEXT_ORDER {
      ParentLinked(pool, st.history + [v], {});
      assert (st.history + [v])[1..] == st.history[1..] + [v];
    }
  }

  lemma HoldingFacts(pool: ContextPool, st: State, v: Byte, predicted: nat, order: nat)
    requires Holding(pool, st, predicted, order)
    ensures st.Valid() && ChainIn(st.model, st.history) && order == |st.history|
    ensures pool.Valid() && LinkedIn(pool.symbols[..], pool.at, pool.model, {}) && pool.model == st.model
    ensures st.history in pool.at && predicted == pool.at[st.history] && pool.nextSymbol == |pool.model|
    ensures ChainAt(pool.at, pool.model, st.history, v, st.history, [], POOL_SIZE)
  {
    hide LinkedIn, Sound, Closed;
    NextValid(st, v);
    PoolKeys(pool);
  }

  method EncodeByte(pool: ContextPool, enc: RangeEncoder, ghost st: State, value: Byte, predicted: nat, order: nat)
    returns (ok: bool, predicted': nat, order': nat)
    requires Holding(pool, st, predicted, order) && ChainIn(st.model, st.history)
    requires enc.Valid() && enc.State().Ready() && enc.length <= enc.out.Length && |enc.Bytes()| == enc.length
    requires pool.symbols as object != enc.out
    modifies pool, pool.symbols, enc`low, enc`range, enc`length, enc.out
    ensures EncoderDid(enc, old(enc.State()), old(enc.length), old(enc.Bytes()), SymbolEvents(st.model, st.history, value), ok)
    ensures ok ==> Holding(pool, Next(st, value), predicted', order')
  {
    hide *;
    HoldingFacts(pool, st, value, predicted, order);
    var extended;
    ok, extended := EncodeChain(pool, enc, st.history, predicted, value);
    predicted', order' := extended, order;
    if ok {
      predicted', order' := Advance(pool, st, value, extended, order);
    }
  }

  function Flatten(buffers: seq<seq<Byte>>): seq<Byte> {
    if buffers == [] then [] else buffers[0] + Flatten(buffers[1..])
  }

  // Compresses the concatenation of the buffers into `out`; zero stands for failure, which
  // means that the compressed form does not fit. Every buffer but the first must hold a byte.
  method Compress(pool: ContextPool, buffers: seq<seq<Byte>>, inLimit: nat, out: array<Byte>) returns (n: nat)
    requires pool.symbols.Length == POOL_SIZE && pool.symbols as object != out
    requires forall i | 0 < i < |buffers| :: buffers[i] != []
    modifies pool, pool.symbols, out
    ensures var packed := Compressed(Flatten(buffers));
            n == if buffers == [] || inLimit == 0 || |packed| > out.Length then 0 else |packed|
    ensures n <= out.Length && (n > 0 ==> out[..n] == Compressed(Flatten(buffers)))
  {
    hide *;
    n := 0;
    if buffers == [] || inLimit == 0 {
      return;
    }
    ghost var input := Flatten(buffers);
    var enc := new RangeEncoder(out);
    pool.Reset();
    var predicted: nat, order: nat, current, next, i, ok := 0, 0, buffers[0], 1, 0, true;
    ghost var st, done, rest := InitialState(), [], input;
    CompressStart(pool, enc, buffers);
    while true
      invariant Holding(pool, st, predicted, order) && st.Valid() && FullInterval.Ready()
      invariant EncoderDid(enc, FullInterval, 0, [], done, true) && AllValid(done)
      invariant InitialState().Valid() && Events(InitialState(), input) == done + Events(st, rest)
      invariant 1 <= next <= |buffers| && 0 <= i <= |current| && rest == current[i..] + Flatten(buffers[next..])
      decreases |rest|
    {
      if i >= |current| {
        if next >= |buffers| {
          break;
        }
        NextBuffer(buffers, next);
        current, next, i := buffers[next], next + 1, 0;
      }
      var value := current[i];
      i := i + 1;
      assert rest[0] == value && rest[1..] == current[i..] + Flatten(buffers[next..]);
      HoldingFacts(pool, st, value, predicted, order);
      EncoderReady(enc, FullInterval, 0, [], done);
      EventsStep(st, rest);
      ghost var es := SymbolEvents(st.model, st.history, value);
      ok, predicted, order := EncodeByte(pool, enc, st, value, predicted, order);
      DidAppend(enc, FullInterval, 0, [], done, es, ok);
      AllValidAppend(done, es);
      ConcatAssociative(done, es, Events(Next(st, value), rest[1..]));
      if !ok {
        OverflowsOutput(enc, input, done + es, Events(Next(st, value), rest[1..]));
        return;
      }
      st, done, rest := Next(st, value), done + es, rest[1..];
    }
    NothingLeft(st, buffers, next);
    assert rest == [] && done + [] == done;
    EncoderReady(enc, FullInterval, 0, [], done);
    CompressedSplit(input, done);
    ok := enc.Flush();
    if ok {
      n := enc.length;
      EncodedBytes(enc);
    }
  }

  lemma CompressStart(pool: ContextPool, enc: RangeEncoder, buffers: seq<seq<Byte>>)
    requires pool.Valid() && LinkedIn(pool.symbols[..], pool.at, pool.model, {}) && pool.model == InitialModel() && pool.at == map[[] := 0]
    requires enc.Valid() && enc.Bytes() == [] && enc.State() == FullInterval && buffers != []
    ensures InitialState().Valid() && FullInterval.Ready() && Holding(pool, InitialState(), 0, 0)
    ensures EncoderDid(enc, FullInterval, 0, [], [], true) && AllValid([])
    ensures [] + Events(InitialState(), Flatten(buffers)) == Events(InitialState(), Flatten(buffers))
    ensures Flatten(buffers) == buffers[0][0..] + Flatten(buffers[1..])
  {
    InitialValid();
    assert enc.length == 0;
  }

  lemma NextBuffer(buffers: seq<seq<Byte>>, next: nat)
    requires next < |buffers|
    ensures Flatten(buffers[next..]) == buffers[next][0..] + Flatten(buffers[next + 1..])
  {
    assert buffers[next..][1..] == buffers[next + 1..];
  }

  lemma NothingLeft(st: State, buffers: seq<seq<Byte>>, next: nat)
    requires next == |buffers| && st.Valid()
    ensures Flatten(buffers[next..]) == [] && Events(st, []) == []
  {
  }

  // The events of an input begin with those of its first byte.
  lemma EventsStep(st: State, rest: seq<Byte>)
    requires st.Valid() && rest != []
    ensures ChainIn(st.model, st.history) && Next(st, rest[0]).Valid()
    ensures Events(st, rest) == SymbolEvents(st.model, st.history, rest[0]) + Events(Next(st, rest[0]), rest[1..])
    ensures AllValid(SymbolEvents(st.model, st.history, rest[0])) && AllValid(Events(Next(st, rest[0]), rest[1..]))
  {
    hide Sound, Closed, SymbolEvents, Next;
    NextValid(st, rest[0]);
    SymbolEventsValid(st.model, st.history, rest[0]);
  }

  // The compressed form is what the events shift out, and the flush.
  lemma CompressedSplit(input: seq<Byte>, done: seq<Event>)
    requires InitialState().Valid() && Events(InitialState(), input) == done
    ensures AllValid(done) && FullInterval.Ready()
    ensures var c := CodedAll(FullInterval, done);
            0 <= c.interval.low < WORD && Compressed(input) == c.bytes + RangeArithmetic.Flush(c.interval.low)
  {
    assert done + [] == done;
    EmittedAppend(FullInterval, done, []);
  }

  lemma OverflowsOutput(enc: RangeEncoder, input: seq<Byte>, done: seq<Event>, rest: seq<Event>)
    requires AllValid(done) && AllValid(rest) && InitialState().Valid() && Events(InitialState(), input) == done + rest
    requires EncoderDid(enc, FullInterval, 0, [], done, false)
    ensures |Compressed(input)| > enc.out.Length
  {
    AllValidAppend(done, rest);
    EmittedAppend(FullInterval, done, rest);
  }

  lemma EncodedBytes(enc: RangeEncoder)
    requires enc.length <= enc.out.Length
    ensures enc.Bytes() == enc.out[..enc.length] && |enc.Bytes()| == enc.length
  {
  }
}
