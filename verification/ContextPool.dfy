// The symbol pool of the packet compressor: 4096 cells that hold the binary indexed trees
// of all contexts, updated in place by the encoder and the decoder.

module ContextPool {
  import opened Words
  import opened RangeArithmetic
  import opened FrequencyModel
  import opened PpmModel
  import T = ContextTree
  import opened PoolLayout

  // The pool after the tree of context `s` counted `v`, but before the totals were adapted.
  ghost function Counted(m: Model, s: Name, v: Byte): Model
    requires s in m
  {
    var m' := m[s := Context(m[s].More(TuningOf(s), v).counts, m[s].escapes)];
    if s + [v] in m then m' else m'[s + [v] := FreshContext()]
  }

  // The cells lay out the trees of all contexts of `m`, and the trees hold their tables.
  ghost predicate LaidOut(cells: Cells, used: nat, m: Model, at: Places, trees: Trees) {
    && |m| == used <= |cells| && at.Keys == m.Keys == trees.Keys
    && Placed(at, used) && [] in at && at[[]] == 0
    && forall s <- m {:trigger ContextIn(cells, at, s, m[s], trees[s])} :: ContextIn(cells, at, s, m[s], trees[s])
  }

  ghost predicate ContextIn(cells: Cells, at: Places, s: Name, c: Context, t: T.Tree) {
    T.Holds(t, c.counts) && TreeAt(cells, at, s, t) && cells[at[s]].escapes == c.escapes
  }

  type Trees = map<Name, T.Tree>

  ghost predicate TotalIn(cells: Cells, at: Places, m: Model, s: Name) {
    s in m && s in at && at[s] < |cells| && cells[at[s]].total == m[s].Total(TuningOf(s))
  }

  ghost function GrownTrees(d: Descent, trees: Trees): Trees {
    if d.s + [d.v] in d.at then trees[d.s := d.Target()] else trees[d.s := d.Target()][d.s + [d.v] := T.Leaf]
  }

  // `d` is a descent in the pool that `m`, `trees` and the starting cells describe.
  ghost predicate DescentIn(d: Descent, m: Model, trees: Trees) {
    && LaidOut(d.start, d.used, m, d.at, trees) && d.Valid()
    && d.s in m && d.t == trees[d.s] && d.update == TuningOf(d.s).delta
  }

  // A completed descent leaves all contexts laid out.
  lemma GrownLaidOut(d: Descent, m: Model, trees: Trees, cells: Cells)
    requires DescentIn(d, m, trees) && d.Complete(cells)
    ensures LaidOut(cells, if d.s + [d.v] in d.at then d.used else d.used + 1, Counted(m, d.s, d.v), d.Grown(), GrownTrees(d, trees))
  {
    GrownKeys(d, m, trees);
    hide Counted, GrownTrees, DescentIn, ContextIn;
    hide Descent.Valid, Descent.Complete, Descent.Grown;
    var m' := Counted(m, d.s, d.v);
    forall u <- m'
      ensures ContextIn(cells, d.Grown(), u, m'[u], GrownTrees(d, trees)[u])
    {
      if u in m {
        GrownContext(d, m, trees, cells, u);
      } else {
        NewContext(d, m, trees, cells, u);
      }
    }
  }

  lemma GrownKeys(d: Descent, m: Model, trees: Trees)
    requires DescentIn(d, m, trees)
    ensures Counted(m, d.s, d.v).Keys == m.Keys + {d.s + [d.v]} == d.Grown().Keys == GrownTrees(d, trees).Keys
    ensures |Counted(m, d.s, d.v)| == if d.s + [d.v] in d.at then d.used else d.used + 1
    ensures Placed(d.Grown(), |Counted(m, d.s, d.v)|) && [] in d.Grown() && d.Grown()[[]] == 0
    ensures d.used + 1 <= |d.start|
  {
    hide ContextIn, T.Indexed, T.Holds, NodesAt, TuningOf, T.Insert;
    assert Counted(m, d.s, d.v).Keys == m.Keys + {d.s + [d.v]};
    assert GrownTrees(d, trees).Keys == m.Keys + {d.s + [d.v]};
    GrownPlaced(d);
  }

  lemma GrownPlaced(d: Descent)
    requires Placed(d.at, d.used)
    ensures Placed(d.Grown(), if d.s + [d.v] in d.at then d.used else d.used + 1)
  {
  }

  lemma GrownContext(d: Descent, m: Model, trees: Trees, cells: Cells, u: Name)
    requires DescentIn(d, m, trees) && d.Complete(cells) && u in m
    requires u in Counted(m, d.s, d.v) && u in GrownTrees(d, trees)
    ensures ContextIn(cells, d.Grown(), u, Counted(m, d.s, d.v)[u], GrownTrees(d, trees)[u])
  {
    assert ContextIn(d.start, d.at, u, m[u], trees[u]);
    assert d.s + [d.v] != d.s;
    if u == d.s {
      T.InsertHolds(d.t, m[u].counts, d.v, d.update);
    } else {
      d.OtherTree(cells, u, trees[u]);
    }
  }

  lemma NewContext(d: Descent, m: Model, trees: Trees, cells: Cells, u: Name)
    requires DescentIn(d, m, trees) && d.Complete(cells) && u !in m
    requires u in Counted(m, d.s, d.v) && u in GrownTrees(d, trees)
    ensures ContextIn(cells, d.Grown(), u, Counted(m, d.s, d.v)[u], GrownTrees(d, trees)[u])
  {
    assert u == d.s + [d.v];
  }

  ghost predicate LinkedIn(cells: Cells, at: Places, m: Model, exempt: set<Name>) {
    forall s <- m {:trigger ParentAt(cells, at, m, s)} | s !in exempt :: ParentAt(cells, at, m, s)
  }

  ghost predicate ParentAt(cells: Cells, at: Places, m: Model, s: Name) {
    && s in at && at[s] < |cells|
    && (s != [] ==> s[1..] in m && s[1..] in at && cells[at[s]].parent == at[s[1..]])
  }

  lemma GrownTotals(d: Descent, m: Model, trees: Trees, cells: Cells)
    requires DescentIn(d, m, trees) && d.Complete(cells) && d.s in m && forall u <- m :: TotalIn(d.start, d.at, m, u)
    ensures d.s in d.Grown() && d.Grown()[d.s] < |cells|
    ensures var head := cells[d.Grown()[d.s]]; head.total == m[d.s].Total(TuningOf(d.s)) && head.escapes == m[d.s].escapes
    ensures forall u <- Counted(m, d.s, d.v) | u != d.s :: TotalIn(cells, d.Grown(), Counted(m, d.s, d.v), u)
  {
    hide *;
    GrownHead(d, m, trees, cells);
    forall u <- Counted(m, d.s, d.v) | u != d.s
      ensures TotalIn(cells, d.Grown(), Counted(m, d.s, d.v), u)
    {
      GrownTotal(d, m, trees, cells, u);
    }
  }

  lemma GrownHead(d: Descent, m: Model, trees: Trees, cells: Cells)
    requires DescentIn(d, m, trees) && d.Complete(cells) && TotalIn(d.start, d.at, m, d.s)
    ensures d.s in m && d.s in d.Grown() && d.Grown()[d.s] < |cells|
    ensures var head := cells[d.Grown()[d.s]]; head.total == m[d.s].Total(TuningOf(d.s)) && head.escapes == m[d.s].escapes
  {
    hide T.Holds, TreeAt, T.Indexed, Context.Total;
    assert ContextIn(d.start, d.at, d.s, m[d.s], trees[d.s]);
  }

  lemma GrownTotal(d: Descent, m: Model, trees: Trees, cells: Cells, u: Name)
    requires DescentIn(d, m, trees) && d.Complete(cells) && u in Counted(m, d.s, d.v) && u != d.s
    requires u in m ==> TotalIn(d.start, d.at, m, u)
    ensures TotalIn(cells, d.Grown(), Counted(m, d.s, d.v), u)
  {
    hide T.Holds, TreeAt, T.Indexed, Context.More, Context.Total, Descent.Complete, Descent.Valid, Descent.Grown, TotalIn, FreshContext;
    d.CompleteFacts(cells);
    GrownKeys(d, m, trees);
    if u in m {
      KeptTotal(d.start, cells, d.at, d.Grown(), m, Counted(m, d.s, d.v), u);
    } else {
      FreshTotal(u);
      NewTotal(cells, d.Grown(), Counted(m, d.s, d.v), u);
    }
  }

  lemma KeptTotal(cells: Cells, cells': Cells, at: Places, at': Places, m: Model, m': Model, u: Name)
    requires TotalIn(cells, at, m, u) && u in m' && m'[u] == m[u] && Extends(at, at') && |cells'| == |cells|
    requires cells'[at[u]].total == cells[at[u]].total
    ensures TotalIn(cells', at', m', u)
  {
  }

  lemma NewTotal(cells: Cells, at: Places, m: Model, u: Name)
    requires u in m && u in at && at[u] < |cells| && m[u].Total(TuningOf(u)) == 0 == cells[at[u]].total
    ensures TotalIn(cells, at, m, u)
  {
  }

  lemma FreshTotal(u: Name)
    requires u != []
    ensures FreshContext().Total(TuningOf(u)) == 0
  {
    BelowNone(0x100);
  }

  // The symbol that counting `v` in context `s` leaves without a link to its parent.
  ghost function Unlinked(m: Model, s: Name, v: Byte): set<Name> {
    if s == [] || s + [v] in m then {} else {s + [v]}
  }

  lemma GrownLinks(d: Descent, m: Model, trees: Trees, cells: Cells, exempt: set<Name>)
    requires DescentIn(d, m, trees) && d.Complete(cells) && LinkedIn(d.start, d.at, m, exempt)
    ensures LinkedIn(cells, d.Grown(), Counted(m, d.s, d.v), exempt + Unlinked(m, d.s, d.v))
  {
    hide T.Holds, TreeAt, T.Indexed, Counted, ContextIn, Descent.Valid, Descent.Complete, ParentAt;
    GrownKeys(d, m, trees);
    forall u <- Counted(m, d.s, d.v) | u !in exempt + Unlinked(m, d.s, d.v)
      ensures ParentAt(cells, d.Grown(), Counted(m, d.s, d.v), u)
    {
      if u in m {
        assert ParentAt(d.start, d.at, m, u);
        GrownParent(d, m, trees, cells, u);
      } else {
        NewRootSymbol(d, m, trees, cells, u);
      }
    }
  }

  lemma GrownParent(d: Descent, m: Model, trees: Trees, cells: Cells, u: Name)
    requires DescentIn(d, m, trees) && d.Complete(cells) && ParentAt(d.start, d.at, m, u) && u in m
    ensures ParentAt(cells, d.Grown(), Counted(m, d.s, d.v), u)
  {
    hide T.Holds, TreeAt, T.Indexed, Context.More, ContextIn, Descent.Complete, Descent.Grown, Counted;
    d.CompleteFacts(cells);
    GrownKeys(d, m, trees);
  }

  lemma NewRootSymbol(d: Descent, m: Model, trees: Trees, cells: Cells, u: Name)
    requires DescentIn(d, m, trees) && d.Complete(cells) && u !in m && u == d.s + [d.v] && d.s == []
    ensures ParentAt(cells, d.Grown(), Counted(m, d.s, d.v), u)
  {
    hide DescentIn, TreeAt, Context.More, Descent.Complete, Descent.Grown, Descent.Valid, Counted;
    DescentPlaces(d, m, trees);
    d.CompleteFacts(cells);
    GrownKeys(d, m, trees);
    assert u[1..] == [];
  }

  lemma DescentPlaces(d: Descent, m: Model, trees: Trees)
    requires DescentIn(d, m, trees)
    ensures d.Valid() && d.at.Keys == m.Keys && d.s in m && [] in m && d.used < |d.start|
  {
  }

  // Changing the head of a context changes nothing but that context's escapes and total.
  lemma ReheadedLaidOut(cells: Cells, cells': Cells, used: nat, m: Model, at: Places, trees: Trees, s: Name, escapes: U16, total: U16)
    requires LaidOut(cells, used, m, at, trees) && s in m && at[s] < |cells|
    requires cells' == cells[at[s] := cells[at[s]].(escapes := escapes, total := total)]
    ensures LaidOut(cells', used, m[s := Context(m[s].counts, escapes)], at, trees)
  {
    var m' := m[s := Context(m[s].counts, escapes)];
    assert m'.Keys == m.Keys;
    forall u <- m'
      ensures ContextIn(cells', at, u, m'[u], trees[u])
    {
      assert ContextIn(cells, at, u, m[u], trees[u]);
      TreeFrame(cells, cells', at, at, u, trees[u]);
    }
  }

  lemma LinkKeepsLayout(cells: Cells, cells': Cells, used: nat, m: Model, at: Places, trees: Trees, i: nat)
    requires LaidOut(cells, used, m, at, trees) && i < |cells| == |cells'|
    requires cells' == cells[i := cells[i].(parent := cells'[i].parent)]
    ensures LaidOut(cells', used, m, at, trees)
    ensures forall u <- m :: TotalIn(cells, at, m, u) ==> TotalIn(cells', at, m, u)
  {
    hide T.Holds, T.Indexed, TreeAt;
    forall u <- m
      ensures ContextIn(cells', at, u, m[u], trees[u])
    {
      assert ContextIn(cells, at, u, m[u], trees[u]);
      HoldsIndexed(trees[u], m[u].counts);
      TreeFrame(cells, cells', at, at, u, trees[u]);
    }
  }

  lemma HoldsIndexed(t: T.Tree, counts: Counts)
    requires T.Holds(t, counts)
    ensures T.Indexed(t, 0, 0x100)
  {
  }

  lemma LinkAdds(cells: Cells, cells': Cells, used: nat, m: Model, at: Places, u: Name, exempt: set<Name>)
    requires Placed(at, used) && u in m && u != [] && u in at && u[1..] in at && u[1..] in m && at[u] < |cells|
    requires |cells'| == |cells| && cells' == cells[at[u] := cells[at[u]].(parent := cells'[at[u]].parent)] && cells'[at[u]].parent == at[u[1..]]
    ensures LinkedIn(cells, at, m, exempt) ==> LinkedIn(cells', at, m, exempt - {u})
  {
    if LinkedIn(cells, at, m, exempt) {
      forall w <- m | w !in exempt - {u}
        ensures ParentAt(cells', at, m, w)
      {
        assert w != u ==> ParentAt(cells, at, m, w);
      }
    }
  }

  lemma RescaledLaidOut(cells: Cells, cells': Cells, used: nat, m: Model, at: Places, trees: Trees, s: Name)
    requires LaidOut(cells, used, m, at, trees) && s in m && trees[s].Node? && T.Weight(trees[s]) <= 0xFFFF
    requires Halving(cells, at, used, s, trees[s]).Finished(cells')
    ensures LaidOut(cells', used, m[s := Context(Halved(m[s].counts), m[s].escapes)], at, trees[s := T.Halve(trees[s])])
  {
    var m', trees' := m[s := Context(Halved(m[s].counts), m[s].escapes)], trees[s := T.Halve(trees[s])];
    assert m'.Keys == m.Keys == trees'.Keys;
    forall u <- m'
      ensures ContextIn(cells', at, u, m'[u], trees'[u])
    {
      assert ContextIn(cells, at, u, m[u], trees[u]);
      if u == s {
        T.HalveHolds(trees[s], m[s].counts);
      } else {
        OtherRescaled(Halving(cells, at, used, s, trees[s]), cells', u, trees[u]);
      }
    }
  }

  lemma OtherRescaled(h: Halving, cells': Cells, u: Name, tu: T.Tree)
    requires h.Finished(cells') && u != h.s && TreeAt(h.start, h.at, u, tu) && T.Indexed(tu, 0, 0x100)
    ensures TreeAt(cells', h.at, u, tu)
  {
    forall w <- T.Values(tu) | u + [w] in h.at && h.at[u + [w]] < |h.start|
      ensures SameNode(h.start[h.at[u + [w]]], cells'[h.at[u + [w]]])
    {
      assert (u + [w])[..|u|] == u;
    }
    TreeFrame(h.start, cells', h.at, h.at, u, tu);
  }

  lemma CountedIsVisit(m: Model, s: Name, v: Byte)
    requires s in m
    ensures s in Counted(m, s, v) && Counted(m, s, v)[s := m[s].Learn(TuningOf(s), v)] == Visit(m, s, v)
  {
    hide Context.Learn, Context.More;
    assert s + [v] != s;
  }

  // A pool with nothing but the root context.
  lemma StartLaidOut(cells: Cells)
    requires |cells| == POOL_SIZE
    requires cells[0] == NewSymbol(0, 0).(escapes := ESCAPE_MINIMUM, total := ESCAPE_MINIMUM + 0x100 * SYMBOL_MINIMUM)
    ensures var m, at := InitialModel(), map[[] := 0];
      && LaidOut(cells, 1, m, at, map[[] := T.Leaf]) && Sound(m) && LinkedIn(cells, at, m, {})
      && forall s <- m :: TotalIn(cells, at, m, s)
  {
    var m, at := InitialModel(), map[[] := 0];
    StartModel();
    hide InitialModel, RootContext, FreshContext, NoCounts, Sound;
    assert |m| == 1;
    assert ContextIn(cells, at, [], m[[]], T.Leaf);
    assert TotalIn(cells, at, m, []);
    assert ParentAt(cells, at, m, []);
  }

  lemma StartModel()
    ensures var m := InitialModel();
      && Sound(m) && m.Keys == {[]} && m[[]].escapes == ESCAPE_MINIMUM && T.Holds(T.Leaf, m[[]].counts)
      && m[[]].Total(TuningOf([])) == ESCAPE_MINIMUM + 0x100 * SYMBOL_MINIMUM
  {
    InitialValid();
    BelowNone(0x100);
    assert T.Values(T.Leaf) == {};
  }

  class ContextPool {
    const symbols: array<Symbol>
    var nextSymbol: nat

    ghost var model: Model
    ghost var at: Places
    ghost var trees: Trees

    ghost predicate Core()
      reads this, symbols
    {
      symbols.Length == POOL_SIZE && nextSymbol <= POOL_SIZE && LaidOut(symbols[..], nextSymbol, model, at, trees)
    }

    ghost predicate Valid()
      reads this, symbols
    {
      Core() && Sound(model) && forall s <- model :: TotalIn(symbols[..], at, model, s)
    }

    constructor ()
      ensures symbols.Length == POOL_SIZE && fresh(symbols)
    {
      symbols := new Symbol[POOL_SIZE];
      nextSymbol := 0;
    }

    // Starts over with nothing but the root context.
    method Reset()
      requires symbols.Length == POOL_SIZE
      modifies this, symbols
      ensures Valid() && LinkedIn(symbols[..], at, model, {}) && model == InitialModel() && nextSymbol == 1 && at == map[[] := 0]
    {
      hide InitialModel, LaidOut, Sound, TotalIn, LinkedIn;
      nextSymbol := 1;
      symbols[0] := NewSymbol(0, 0).(escapes := ESCAPE_MINIMUM, total := ESCAPE_MINIMUM + 0x100 * SYMBOL_MINIMUM);
      model := InitialModel();
      at := map[[] := 0];
      trees := map[[] := T.Leaf];
      StartLaidOut(symbols[..]);
    }

    // Looks `value` up in context `s`, counting it: an existing symbol gains `update`, a new
    // one is created with that count.
    method Encode(ghost s: Name, ghost exempt: set<Name>, context: nat, value: Byte, update: Byte, minimum: Byte)
      returns (symbol: nat, under: U16, count: U16)
      requires Valid() && nextSymbol < POOL_SIZE
      requires s in model && |s| <= SUBCONTEXT_ORDER && s in at && context == at[s]
      requires update == TuningOf(s).delta && minimum == TuningOf(s).minimum
      modifies this, symbols
      ensures Core() && model == Counted(old(model), s, value) && Extends(old(at), at)
      ensures s in at && at[s] == context
      ensures s + [value] in at && symbol == at[s + [value]]
      ensures under == value * minimum + Below(old(model)[s].counts, value)
      ensures count == minimum + old(model)[s].counts[value]
      ensures UncountedTotals(old(model), s)
      ensures (old(LinkedIn(symbols[..], at, model, exempt)) ==> LinkedIn(symbols[..], at, model, exempt + Unlinked(old(model), s, value)))
    {
      hide *;
      EncodeFacts(s, value, context);
      ghost var d, trees' := Descending(s, value), GrownTrees(Descending(s, value), trees);
      if symbols[context].symbols == 0 {
        under, count := SmallProduct(value, minimum), minimum;
        symbol := CreateFirst(d, context, value, update);
      } else {
        symbol, under, count := Walk(d, context + symbols[context].symbols, value, update, SmallProduct(value, minimum), minimum);
        d.Attached(symbols[..]);
      }
      ghost var m, trees0 := model, trees;
      d.CompleteFacts(symbols[..]);
      GrownLaidOut(d, model, trees, symbols[..]);
      model, at, trees := Counted(model, s, value), d.Grown(), trees';
      CoreIntro();
      UncountedIntro(d, m, trees0);
      LinkedFacts(exempt, d, m, trees0);
    }

    // All totals still belong to the model before `s` was counted.
    ghost predicate UncountedTotals(m: Model, s: Name)
      reads this, symbols
    {
      && s in m && s in at && at[s] < symbols.Length
      && symbols[at[s]].total == m[s].Total(TuningOf(s)) && symbols[at[s]].escapes == m[s].escapes
      && forall u <- model | u != s :: TotalIn(symbols[..], at, model, u)
    }

    lemma UncountedFacts(m: Model, s: Name)
      requires UncountedTotals(m, s)
      ensures s in m && s in at && at[s] < symbols.Length
      ensures symbols[at[s]].total == m[s].Total(TuningOf(s)) && symbols[at[s]].escapes == m[s].escapes
    {
    }

    lemma UncountedIntro(d: Descent, m: Model, trees0: Trees)
      requires DescentIn(d, m, trees0) && d.Complete(symbols[..]) && symbols.Length == |d.start|
      requires model == Counted(m, d.s, d.v) && at == d.Grown()
      requires forall u <- m :: TotalIn(d.start, d.at, m, u)
      ensures UncountedTotals(m, d.s)
    {
      GrownTotals(d, m, trees0, symbols[..]);
    }

    lemma LinkedFacts(exempt: set<Name>, d: Descent, m: Model, trees0: Trees)
      requires DescentIn(d, m, trees0) && d.Complete(symbols[..])
      requires model == Counted(m, d.s, d.v) && at == d.Grown()
      ensures LinkedIn(d.start, d.at, m, exempt) ==> LinkedIn(symbols[..], at, model, exempt + Unlinked(m, d.s, d.v))
    {
      if LinkedIn(d.start, d.at, m, exempt) {
        GrownLinks(d, m, trees0, symbols[..], exempt);
      }
    }

    lemma CoreIntro()
      requires symbols.Length == POOL_SIZE && nextSymbol <= symbols.Length && LaidOut(symbols[..], nextSymbol, model, at, trees)
      ensures Core()
    {
    }

    // The first symbol of a context becomes the root of its tree.
    method CreateFirst(ghost d: Descent, context: nat, value: Byte, update: Byte) returns (symbol: nat)
      requires symbols.Length == |d.start| <= 0x1_0000 && d.start == symbols[..] && d.used == nextSymbol < symbols.Length
      requires d.Valid() && d.v == value && d.update == update
      requires d.t.Leaf? && d.s in d.at && context == d.at[d.s] && context < nextSymbol
      modifies this`nextSymbol, symbols
      ensures d.Complete(symbols[..]) && nextSymbol == d.used + 1
      ensures symbol == d.used
    {
      symbol := Create(value, update);
      ghost var created := symbols[..];
      symbols[context] := symbols[context].(symbols := symbol - context);
      d.AttachedFirst(created, symbols[..], symbol - context);
    }

    // The next free cell becomes a symbol.
    method Create(value: Byte, count: Byte) returns (symbol: nat)
      requires nextSymbol < symbols.Length
      modifies this`nextSymbol, symbols
      ensures symbol == old(nextSymbol) && nextSymbol == symbol + 1
      ensures symbols[..] == old(symbols[..])[symbol := NewSymbol(value, count)]
    {
      symbols[nextSymbol] := NewSymbol(value, count);
      symbol := nextSymbol;
      nextSymbol := nextSymbol + 1;
    }

    ghost function Descending(s: Name, value: Byte): Descent
      requires s in trees
      reads this, symbols
    {
      Descent(symbols[..], at, nextSymbol, s, trees[s], value, TuningOf(s).delta)
    }

    // The descent of Encode from the root of a non-empty tree.
    method Walk(ghost d: Descent, root: nat, value: Byte, update: Byte, base: Byte, minimum: Byte)
      returns (symbol: nat, under: U16, count: U16)
      requires symbols.Length == |d.start| <= 0x1_0000 && d.start == symbols[..] && d.used == nextSymbol < symbols.Length
      requires d.Valid() && d.v == value && d.update == update && base <= value
      requires d.t.Node? && d.s + [d.t.value] in d.at && root == d.at[d.s + [d.t.value]]
      requires T.CountOf(d.t, value) + update <= 0xFF && minimum <= 1 && T.Weight(d.t) + base + update <= 0xFFFF
      modifies this`nextSymbol, symbols
      ensures d.Finished(symbols[..]) && d.s + [value] in d.Grown() && symbol == d.Grown()[d.s + [value]]
      ensures under == base + T.WeightBelow(d.t, value)
      ensures count == minimum + T.CountOf(d.t, value)
      ensures nextSymbol == if d.s + [value] in d.at then d.used else d.used + 1
    {
      hide *;
      under, count := base, minimum;
      var node: nat := root;
      ghost var cur, lo: int, hi: int := d.t, 0, 0x100;
      d.Begin();
      T.WeightBelowLimit(d.t, value);
      while true
        invariant nextSymbol == d.used
        invariant d.Reached(symbols[..], cur, lo, hi, node) && cur.Node?
        invariant under == base + T.WeightBelow(d.t, value) - T.WeightBelow(cur, value)
        invariant count == minimum
        decreases cur
      {
        d.Standing(symbols[..], cur, lo, hi, node);
        if value < symbols[node].value {
          if symbols[node].left != 0 {
            node := PassLeft(d, cur, lo, hi, node, update);
            cur, hi := cur.left, cur.value;
            continue;
          }
          symbol := NewLeft(d, cur, lo, hi, node, value, update);
        } else if value > symbols[node].value {
          under := under + symbols[node].under;
          if symbols[node].right != 0 {
            d.GoRight(symbols[..], cur, lo, hi, node);
            node := node + symbols[node].right;
            cur, lo := cur.right, cur.value + 1;
            continue;
          }
          symbol := NewRight(d, cur, lo, hi, node, value, update);
        } else {
          count := count + symbols[node].count;
          under := under + (symbols[node].under - symbols[node].count);
          d.CountFound(symbols[..], symbols[..][node := CountHere(symbols[node], update)], cur, lo, hi, node);
          symbols[node] := CountHere(symbols[node], update);
          symbol := node;
        }
        break;
      }
    }

    // The descent counts a smaller value in a node and goes on to its left child.
    method PassLeft(ghost d: Descent, ghost cur: T.Tree, ghost lo: int, ghost hi: int, node: nat, update: Byte)
      returns (child: nat)
      requires symbols.Length == |d.start| && d.used == nextSymbol
      requires cur.Node? && d.Valid() && d.update == update && d.v < cur.value && cur.left.Node?
      requires d.Reached(symbols[..], cur, lo, hi, node) && node < symbols.Length && symbols[node].under + update <= 0xFFFF
      modifies symbols
      ensures d.Reached(symbols[..], cur.left, lo, cur.value, child)
    {
      hide *;
      d.GoLeft(symbols[..], symbols[..][node := CountBelow(symbols[node], update)], cur, lo, hi, node);
      symbols[node] := CountBelow(symbols[node], update);
      child := node + symbols[node].left;
    }

    // The descent counts a smaller value in a node and creates it as its left child.
    method NewLeft(ghost d: Descent, ghost cur: T.Tree, ghost lo: int, ghost hi: int, node: nat, value: Byte, update: Byte)
      returns (symbol: nat)
      requires symbols.Length == |d.start| <= 0x1_0000 && node < d.used == nextSymbol < symbols.Length
      requires cur.Node? && d.Valid() && d.v == value && d.update == update && value < cur.value && cur.left.Leaf?
      requires d.Reached(symbols[..], cur, lo, hi, node) && symbols[node].under + update <= 0xFFFF
      modifies this`nextSymbol, symbols
      ensures nextSymbol == d.used + 1 && d.Finished(symbols[..]) && T.WeightBelow(cur.left, value) == 0
      ensures d.s + [value] !in d.at && d.s + [value] in d.Grown() && d.Grown()[d.s + [value]] == symbol && T.CountOf(d.t, value) == 0
    {
      hide *;
      ghost var before := symbols[..];
      symbols[node] := CountBelow(symbols[node], update);
      symbol := Create(value, update);
      symbols[node] := symbols[node].(left := symbol - node);
      d.CreateLeft(before, symbols[..], cur, lo, hi, node);
    }

    // The descent creates a larger value as the right child of a node.
    method NewRight(ghost d: Descent, ghost cur: T.Tree, ghost lo: int, ghost hi: int, node: nat, value: Byte, update: Byte)
      returns (symbol: nat)
      requires symbols.Length == |d.start| <= 0x1_0000 && node < d.used == nextSymbol < symbols.Length
      requires cur.Node? && d.Valid() && d.v == value && d.update == update && value > cur.value && cur.right.Leaf?
      requires d.Reached(symbols[..], cur, lo, hi, node)
      modifies this`nextSymbol, symbols
      ensures nextSymbol == d.used + 1 && d.Finished(symbols[..]) && T.WeightBelow(cur.right, value) == 0
      ensures d.s + [value] !in d.at && d.s + [value] in d.Grown() && d.Grown()[d.s + [value]] == symbol && T.CountOf(d.t, value) == 0
    {
      hide *;
      ghost var before := symbols[..];
      symbol := Create(value, update);
      symbols[node] := symbols[node].(right := symbol - node);
      d.CreateRight(before, symbols[..], cur, lo, hi, node);
    }

    // Finds the symbol of context `s` whose slice holds `code`, which is that of `v`, and counts
    // it. The root context creates a symbol it has not met, every value having one unit there.
    method Decode(ghost s: Name, ghost exempt: set<Name>, ghost v: Byte, context: nat, code: U16, update: Byte, minimum: Byte)
      returns (value: Byte, symbol: nat, under: U16, count: U16)
      requires Valid() && nextSymbol < POOL_SIZE
      requires s in model && |s| <= SUBCONTEXT_ORDER && s in at && context == at[s]
      requires update == TuningOf(s).delta && minimum == TuningOf(s).minimum
      requires v * minimum + Below(model[s].counts, v) <= code < v * minimum + Below(model[s].counts, v) + model[s].counts[v] + minimum
      modifies this, symbols
      ensures value == v
      ensures Core() && model == Counted(old(model), s, v) && Extends(old(at), at)
      ensures s in at && at[s] == context
      ensures s + [v] in at && symbol == at[s + [v]]
      ensures under == v * minimum + Below(old(model)[s].counts, v)
      ensures count == minimum + old(model)[s].counts[v]
      ensures UncountedTotals(old(model), s)
      ensures (old(LinkedIn(symbols[..], at, model, exempt)) ==> LinkedIn(symbols[..], at, model, exempt + Unlinked(old(model), s, v)))
    {
      hide *;
      EncodeFacts(s, v, context);
      ghost var d, trees' := Descending(s, v), GrownTrees(Descending(s, v), trees);
      if symbols[context].symbols == 0 {
        d.EmptySlice(code, minimum);
        value := code / minimum;
        under, count := code - code % minimum, minimum;
        symbol := CreateFirst(d, context, value, update);
      } else {
        value, symbol, under, count := DecodeWalk(d, context + symbols[context].symbols, code, update, minimum);
        d.Attached(symbols[..]);
      }
      ghost var m, trees0 := model, trees;
      d.CompleteFacts(symbols[..]);
      GrownLaidOut(d, model, trees, symbols[..]);
      model, at, trees := Counted(model, s, value), d.Grown(), trees';
      CoreIntro();
      UncountedIntro(d, m, trees0);
      LinkedFacts(exempt, d, m, trees0);
    }

    // The descent of Decode from the root of a non-empty tree.
    method DecodeWalk(ghost d: Descent, root: nat, code: U16, update: Byte, minimum: Byte)
      returns (value: Byte, symbol: nat, under: U16, count: U16)
      requires symbols.Length == |d.start| <= 0x1_0000 && d.start == symbols[..] && d.used == nextSymbol < symbols.Length
      requires d.Valid() && d.update == update && minimum <= 1
      requires d.t.Node? && d.s + [d.t.value] in d.at && root == d.at[d.s + [d.t.value]]
      requires T.CountOf(d.t, d.v) + update <= 0xFF && T.Weight(d.t) + 0x100 * minimum + update <= 0xFFFF
      requires var low := d.v * minimum + T.WeightBelow(d.t, d.v); low <= code < low + T.CountOf(d.t, d.v) + minimum
      modifies this`nextSymbol, symbols
      ensures value == d.v
      ensures d.Finished(symbols[..]) && d.s + [value] in d.Grown() && symbol == d.Grown()[d.s + [value]]
      ensures under == value * minimum + T.WeightBelow(d.t, value)
      ensures count == minimum + T.CountOf(d.t, value)
      ensures nextSymbol == if d.s + [value] in d.at then d.used else d.used + 1
    {
      hide *;
      under, count := 0, minimum;
      var node: nat := root;
      ghost var cur, lo: int, hi: int := d.t, 0, 0x100;
      d.Begin();
      while true
        invariant nextSymbol == d.used
        invariant d.Reached(symbols[..], cur, lo, hi, node) && cur.Node?
        invariant under == T.WeightBelow(d.t, d.v) - T.WeightBelow(cur, d.v)
        invariant count == minimum
        decreases cur
      {
        d.Standing(symbols[..], cur, lo, hi, node);
        d.DecodeSide(symbols[..], cur, lo, hi, node, under, code, minimum);
        var after: int := under + symbols[node].under + (symbols[node].value + 1) * minimum;
        var before: int := symbols[node].count + minimum;
        if code >= after {
          under := under + symbols[node].under;
          if symbols[node].right != 0 {
            d.GoRight(symbols[..], cur, lo, hi, node);
            node := node + symbols[node].right;
            cur, lo := cur.right, cur.value + 1;
            continue;
          }
          value := symbols[node].value + 1 + (code - after) / minimum;
          under := code - (code - after) % minimum;
          symbol := NewRight(d, cur, lo, hi, node, value, update);
        } else if code < after - before {
          if symbols[node].left != 0 {
            node := PassLeft(d, cur, lo, hi, node, update);
            cur, hi := cur.left, cur.value;
            continue;
          }
          value := symbols[node].value - 1 - (after - before - code - 1) / minimum;
          under := code - (after - before - code - 1) % minimum;
          symbol := NewLeft(d, cur, lo, hi, node, value, update);
        } else {
          value := symbols[node].value;
          count := count + symbols[node].count;
          under := after - before;
          d.CountFound(symbols[..], symbols[..][node := CountHere(symbols[node], update)], cur, lo, hi, node);
          symbols[node] := CountHere(symbols[node], update);
          symbol := node;
        }
        break;
      }
    }

    // Halves the counters of a whole tree, rebuilding `under`, and returns its new weight.
    method Rescale(ghost h: Halving, root: nat) returns (total: U16)
      requires symbols.Length == |h.start| && h.start == symbols[..] && h.Valid() && h.t.Node?
      requires h.s + [h.t.value] in h.at && root == h.at[h.s + [h.t.value]]
      modifies symbols
      ensures h.Finished(symbols[..]) && total == T.Weight(T.Halve(h.t))
      decreases T.Size(h.t), 1
    {
      hide *;
      total := 0;
      var node: nat := root;
      ghost var cur, lo: int := h.t, 0;
      h.Begin();
      while true
        invariant h.Reached(symbols[..], cur, lo, node) && cur.Node?
        invariant total + T.Weight(T.Halve(cur)) == T.Weight(T.Halve(h.t))
        invariant T.Size(cur) <= T.Size(h.t)
        decreases T.Size(cur)
      {
        h.Standing(symbols[..], cur, lo, node);
        T.Smaller(cur);
        T.HalveWeight(h.t);
        RescaleNode(h, cur, lo, node);
        total := total + symbols[node].under;
        if symbols[node].right == 0 {
          break;
        }
        node := node + symbols[node].right;
        cur, lo := cur.right, cur.value + 1;
      }
    }

    // One round of Rescale: a node of the right spine, with its left subtree.
    method RescaleNode(ghost h: Halving, ghost cur: T.Tree, ghost lo: int, node: nat)
      requires symbols.Length == |h.start| && h.Valid() && h.Reached(symbols[..], cur, lo, node) && node < symbols.Length
      requires cur.Node? && T.Size(cur) <= T.Size(h.t)
      modifies symbols
      ensures symbols[node].under == T.Halve(cur).under && symbols[node].right == old(symbols[node].right)
      ensures cur.right.Node? ==> h.Reached(symbols[..], cur.right, cur.value + 1, node + symbols[node].right)
      ensures cur.right.Leaf? ==> h.Finished(symbols[..])
      decreases T.Size(h.t), 0, T.Size(cur)
    {
      hide *;
      ghost var before := symbols[..];
      h.Standing(before, cur, lo, node);
      T.Smaller(cur);
      symbols[node] := HalvedSymbol(symbols[node]);
      ghost var halved := symbols[..];
      ghost var passed := halved;
      var weight: U16 := 0;
      if symbols[node].left != 0 {
        h.LeftPass(before, halved, cur, lo, node);
        weight := Rescale(Halving(halved, h.at, h.used, h.s, cur.left), node + symbols[node].left);
        passed := symbols[..];
      }
      h.NodePassed(before, halved, passed, cur, lo, node);
      symbols[node] := AddUnder(symbols[node], weight);
      h.NodeHalved(before, halved, passed, symbols[..], cur, lo, node);
    }

    // Sets the escape count and the total of context `s`.
    method SetHead(ghost s: Name, context: nat, escapes: U16, total: U16)
      requires Core() && s in model && s in at && context == at[s]
      modifies this`model, symbols
      ensures Core() && model == old(model)[s := Context(old(model)[s].counts, escapes)]
      ensures symbols[..] == old(symbols[..])[context := old(symbols[context]).(escapes := escapes, total := total)]
    {
      ReheadedLaidOut(symbols[..], symbols[..][context := symbols[context].(escapes := escapes, total := total)],
        nextSymbol, model, at, trees, s, escapes, total);
      symbols[context] := symbols[context].(escapes := escapes, total := total);
      model := model[s := Context(model[s].counts, escapes)];
    }

    // The updates that follow the coding of `v` in context `s`, whose old table had `count`
    // units for it: escapes and total grow, and large counters are rescaled.
    method Adapt(ghost m0: Model, ghost s: Name, ghost v: Byte, ghost exempt: set<Name>, context: nat, count: nat, delta: Byte, minimum: Byte)
      requires Core() && s in m0 && s in at && context == at[s] < symbols.Length && Sound(m0) && |s| <= SUBCONTEXT_ORDER
      requires model == Counted(m0, s, v) && count == m0[s].counts[v] + minimum
      requires delta == TuningOf(s).delta && minimum == TuningOf(s).minimum
      requires UncountedTotals(m0, s)
      modifies this`model, this`trees, symbols
      ensures Valid() && model == Visit(m0, s, v)
      ensures old(LinkedIn(symbols[..], at, model, exempt)) ==> LinkedIn(symbols[..], at, model, exempt)
    {
      hide *;
      AdaptFacts(m0, s, v, context);
      ghost var cells, counted := symbols[..], model;
      var escapes, total := symbols[context].escapes, symbols[context].total;
      if count == 0 {
        escapes := escapes + SUBCONTEXT_ESCAPE_DELTA;
        total := total + SUBCONTEXT_ESCAPE_DELTA;
      }
      total := total + delta;
      SetHead(s, context, escapes, total);
      if count > 0xFF - 2 * delta + minimum || total > BOTTOM - 0x100 {
        RescaleContext(s, context, minimum);
      }
      AdaptDone(m0, s, v, cells);
      LinksKept(cells, counted, exempt);
    }

    // The symbol `u` links to its parent.
    method Link(ghost u: Name, ghost exempt: set<Name>, previous: nat, symbol: nat)
      requires Valid() && u in model && u != [] && u in at && previous == at[u] && u[1..] in at && symbol == at[u[1..]]
      modifies symbols
      ensures Valid()
      ensures old(LinkedIn(symbols[..], at, model, exempt)) ==> LinkedIn(symbols[..], at, model, exempt - {u})
    {
      ghost var cells := symbols[..];
      symbols[previous] := symbols[previous].(parent := symbol);
      ghost var m, at0 := model, at;
      LinkKeepsLayout(cells, symbols[..], nextSymbol, model, at, trees, previous);
      LinkAdds(cells, symbols[..], nextSymbol, model, at, u, exempt);
    }

    // Halves the counters of context `s`, its escapes included, and recomputes its total.
    method RescaleContext(ghost s: Name, context: nat, minimum: Byte)
      requires Core() && s in model && s in at && context == at[s] && s in trees
      requires trees[s].Node? && T.Weight(trees[s]) + model[s].escapes + 0x100 * minimum <= 0xFFFF
      requires minimum == TuningOf(s).minimum
      modifies this`model, this`trees, symbols
      ensures Core() && model == old(model)[s := old(model)[s].Rescale()]
      ensures symbols[context].total == model[s].Total(TuningOf(s))
      ensures forall i | 0 <= i < symbols.Length ::
                symbols[i].parent == old(symbols[i].parent) && (i != context ==> symbols[i].total == old(symbols[i].total))
    {
      hide *;
      RescaleFacts(s, context, minimum);
      ghost var h := Halving(symbols[..], at, nextSymbol, s, trees[s]);
      ghost var m := model;
      var total := Rescale(h, context + symbols[context].symbols);
      RescaledLaidOut(h.start, symbols[..], nextSymbol, model, at, trees, s);
      h.HeadsKept(symbols[..]);
      model, trees := model[s := Context(Halved(m[s].counts), m[s].escapes)], trees[s := T.Halve(trees[s])];
      CoreIntro();
      var escapes := symbols[context].escapes - symbols[context].escapes / 2;
      total := total + escapes + 0x100 * minimum;
      SetHead(s, context, escapes, total);
    }

    lemma RescaleFacts(s: Name, context: nat, minimum: Byte)
      requires Core() && s in model && s in at && context == at[s] && s in trees && trees[s].Node?
      requires T.Weight(trees[s]) + model[s].escapes + 0x100 * minimum <= 0xFFFF && minimum == TuningOf(s).minimum
      ensures symbols.Length == POOL_SIZE && nextSymbol <= symbols.Length && context < symbols.Length
      ensures LaidOut(symbols[..], nextSymbol, model, at, trees)
      ensures Halving(symbols[..], at, nextSymbol, s, trees[s]).Valid()
      ensures s + [trees[s].value] in at && at[s + [trees[s].value]] == context + symbols[context].symbols
      ensures symbols[context].escapes == model[s].escapes
      ensures model[s].Rescale() == Context(Halved(model[s].counts), model[s].escapes - model[s].escapes / 2)
      ensures T.Weight(T.Halve(trees[s])) <= T.Weight(trees[s])
      ensures model[s].Rescale().Total(TuningOf(s)) == T.Weight(T.Halve(trees[s])) + model[s].Rescale().escapes + 0x100 * minimum
    {
      assert ContextIn(symbols[..], at, s, model[s], trees[s]);
      T.HalveWeight(trees[s]);
      T.HalveHolds(trees[s], model[s].counts);
      T.WeightIsBelow(T.Halve(trees[s]), Halved(model[s].counts), 0x100);
    }

    lemma AdaptFacts(m0: Model, s: Name, v: Byte, context: nat)
      requires Core() && s in m0 && s in at && context == at[s] && Sound(m0) && |s| <= SUBCONTEXT_ORDER
      requires model == Counted(m0, s, v) && context < symbols.Length
      requires UncountedTotals(m0, s)
      ensures forall u <- Counted(m0, s, v) | u != s :: TotalIn(symbols[..], at, Counted(m0, s, v), u)
      ensures SUBCONTEXT_ESCAPE_DELTA == 5 && BOTTOM == 0x1_0000 && TuningOf(s).delta <= 3
      ensures s in model && s in trees && trees[s].Node?
      ensures symbols[context].escapes <= symbols[context].total <= 0xFF00
      ensures var t := TuningOf(s); var more := m0[s].More(t, v); var novel := m0[s].counts[v] + t.minimum == 0;
        && Context(model[s].counts, more.escapes) == more
        && more.escapes == symbols[context].escapes + (if novel then 5 else 0)
        && more.Total(t) == symbols[context].total + t.delta + (if novel then 5 else 0)
        && T.Weight(trees[s]) + more.escapes + 0x100 * t.minimum == more.Total(t)
        && m0[s].Learn(t, v) ==
             if m0[s].counts[v] + t.minimum > 0xFF - 2 * t.delta + t.minimum || more.Total(t) > 0xFF00 then more.Rescale() else more
    {
      hide Core, Counted, T.Weight, T.Holds, TotalIn;
      CountedTree(m0, s, v);
      assert BoundedIn(m0, s);
      MorePositive(m0[s], TuningOf(s), v);
    }

    // The tree of a context that counted a symbol weighs as much as the table it holds.
    lemma CountedTree(m0: Model, s: Name, v: Byte)
      requires Core() && s in m0 && model == Counted(m0, s, v)
      ensures s in model && s in trees && model[s] == Context(m0[s].More(TuningOf(s), v).counts, m0[s].escapes)
      ensures T.Weight(trees[s]) == Below(model[s].counts, 0x100) && (T.Weight(trees[s]) > 0 ==> trees[s].Node?)
    {
      assert ContextIn(symbols[..], at, s, model[s], trees[s]);
      T.WeightIsBelow(trees[s], model[s].counts, 0x100);
    }

    lemma LinksKept(cells: Cells, m: Model, exempt: set<Name>)
      requires |cells| == symbols.Length && m.Keys == model.Keys
      requires forall i | 0 <= i < |cells| :: symbols[i].parent == cells[i].parent
      ensures LinkedIn(cells, at, m, exempt) ==> LinkedIn(symbols[..], at, model, exempt)
    {
      if LinkedIn(cells, at, m, exempt) {
        forall u <- model | u !in exempt
          ensures ParentAt(symbols[..], at, model, u)
        {
          assert ParentAt(cells, at, m, u);
        }
      }
    }

    lemma AdaptDone(m0: Model, s: Name, v: Byte, cells: Cells)
      requires Core() && s in m0 && s in at && Sound(m0) && |s| <= SUBCONTEXT_ORDER && |cells| == symbols.Length && at[s] < |cells|
      requires model == Counted(m0, s, v)[s := m0[s].Learn(TuningOf(s), v)]
      requires forall u <- Counted(m0, s, v) | u != s :: TotalIn(cells, at, Counted(m0, s, v), u)
      requires forall i | 0 <= i < |cells| && i != at[s] :: symbols[i].total == cells[i].total
      requires symbols[at[s]].total == model[s].Total(TuningOf(s))
      ensures Valid() && model == Visit(m0, s, v)
    {
      hide *;
      CountedIsVisit(m0, s, v);
      VisitSound(m0, s, v);
      forall u <- model
        ensures TotalIn(symbols[..], at, model, u)
      {
        TotalKept(Counted(m0, s, v), cells, s, u);
      }
      ValidIntro();
    }

    lemma ValidIntro()
      requires Core() && Sound(model) && forall s <- model :: TotalIn(symbols[..], at, model, s)
      ensures Valid()
    {
    }

    lemma TotalKept(m: Model, cells: Cells, s: Name, u: Name)
      requires Core() && s in at && |cells| == symbols.Length && at[s] < |cells| && u in model && s in m
      requires model == m[s := model[s]]
      requires u != s ==> TotalIn(cells, at, m, u)
      requires forall i | 0 <= i < |cells| && i != at[s] :: symbols[i].total == cells[i].total
      requires symbols[at[s]].total == model[s].Total(TuningOf(s))
      ensures TotalIn(symbols[..], at, model, u)
    {
    }

    // What a descent in the tree of context `s` may rely on.
    lemma EncodeFacts(s: Name, value: Byte, context: nat)
      requires Valid() && s in model && |s| <= SUBCONTEXT_ORDER && nextSymbol < POOL_SIZE && s in at && context == at[s]
      ensures symbols.Length == POOL_SIZE <= 0x1_0000 && nextSymbol < symbols.Length && context < nextSymbol && s in trees
      ensures var d := Descending(s, value);
        && d.start == symbols[..] && d.at == at && d.used == nextSymbol && d.s == s && d.t == trees[s] && d.v == value
        && d.update == TuningOf(s).delta <= 3 && DescentIn(d, model, trees) && d.Valid()
      ensures TreeAt(symbols[..], at, s, trees[s])
      ensures forall u <- model :: TotalIn(symbols[..], at, model, u)
      ensures symbols[context].symbols == 0 <==> trees[s].Leaf?
      ensures trees[s].Node? ==> s + [trees[s].value] in at && at[s + [trees[s].value]] == context + symbols[context].symbols
      ensures T.CountOf(trees[s], value) == model[s].counts[value] <= 0xFF - TuningOf(s).delta
      ensures T.WeightBelow(trees[s], value) == Below(model[s].counts, value)
      ensures trees[s].Leaf? ==> Below(model[s].counts, value) == 0
      ensures T.Weight(trees[s]) <= 0xFF00 - 0x100 * TuningOf(s).minimum && TuningOf(s).minimum <= 1
    {
      assert ContextIn(symbols[..], at, s, model[s], trees[s]) && BoundedIn(model, s) && PpmModel.Holds(model, s);
      T.FindIn(trees[s], value, 0, 0x100);
      T.WeightIsBelow(trees[s], model[s].counts, value);
      T.WeightIsBelow(trees[s], model[s].counts, 0x100);
    }
  }

  // A multiple by a minimum of zero or one.
  function SmallProduct(value: Byte, minimum: Byte): (r: Byte)
    requires minimum <= 1
    ensures r == value * minimum
  {
    if minimum == 0 then 0 else value
  }
}
