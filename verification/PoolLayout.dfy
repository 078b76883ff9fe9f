// How the symbol pool lays out contexts: every symbol is one cell of an array, cells refer
// to each other by forward offsets, and the cell of a symbol is also the head of the context
// that the symbol's name denotes. These are facts about cell sequences; the pool itself is
// the class of ContextPool.dfy.

module PoolLayout {
  import opened Words
  import opened FrequencyModel
  import opened ContextTree

  datatype Symbol = Symbol(
    value: Byte, count: Byte, under: U16, left: U16, right: U16,
    symbols: U16, escapes: U16, total: U16, parent: U16)

  type Cells = seq<Symbol>
  type Places = map<Name, nat>

  function NewSymbol(value: Byte, count: Byte): Symbol {
    Symbol(value, count, count, 0, 0, 0, 0, 0, 0)
  }

  // A symbol smaller than this one is counted in its left subtree.
  function CountBelow(x: Symbol, update: Byte): (r: Symbol)
    requires x.under + update <= 0xFFFF
    ensures r.left == x.left
  {
    x.(under := x.under + update)
  }

  // This symbol itself is counted.
  function CountHere(x: Symbol, update: Byte): Symbol
    requires x.under + update <= 0xFFFF && x.count + update <= 0xFF
  {
    x.(under := x.under + update, count := x.count + update)
  }

  // The counter is halved, rounding up, and `under` starts over from it.
  function HalvedSymbol(x: Symbol): (r: Symbol)
    ensures r.left == x.left && r.right == x.right && r.under == r.count == x.count - x.count / 2
  {
    x.(count := x.count - x.count / 2, under := x.count - x.count / 2)
  }

  function AddUnder(x: Symbol, weight: U16): (r: Symbol)
    requires x.under + weight <= 0xFFFF
    ensures r.right == x.right && r.under == x.under + weight
  {
    x.(under := x.under + weight)
  }

  ghost predicate Placed(at: Places, limit: nat) {
    && (forall s <- at :: at[s] < limit)
    && (forall s <- at, u <- at :: at[s] == at[u] ==> s == u)
  }

  // An offset from cell `from` to the root of `t`; 0 stands for no subtree.
  ghost predicate Linked(at: Places, s: Name, from: nat, offset: U16, t: Tree) {
    if t.Leaf? then offset == 0
    else s + [t.value] in at && at[s + [t.value]] == from + offset && offset > 0
  }

  // The root of `t` is laid out in its cell.
  ghost predicate NodeAt(cells: Cells, at: Places, s: Name, t: Tree) {
    && t.Node? && s + [t.value] in at && at[s + [t.value]] < |cells|
    && var i := at[s + [t.value]];
       && cells[i].value == t.value && cells[i].count == t.count && cells[i].under == t.under
       && Linked(at, s, i, cells[i].left, t.left) && Linked(at, s, i, cells[i].right, t.right)
  }

  // All nodes of `t`, a tree of context `s`, are laid out.
  ghost predicate NodesAt(cells: Cells, at: Places, s: Name, t: Tree) {
    forall w <- Values(t) :: NodeAt(cells, at, s, Find(t, w))
  }

  ghost predicate TreeAt(cells: Cells, at: Places, s: Name, t: Tree) {
    && s in at && at[s] < |cells|
    && Linked(at, s, at[s], cells[at[s]].symbols, t)
    && NodesAt(cells, at, s, t)
  }

  predicate SameNode(a: Symbol, b: Symbol) {
    a.value == b.value && a.count == b.count && a.under == b.under && a.left == b.left && a.right == b.right
  }

  ghost predicate Extends(at: Places, at': Places) {
    forall s <- at :: s in at' && at'[s] == at[s]
  }

  lemma NamesDiffer(s: Name, v: Byte, u: Name, w: Byte)
    ensures s + [v] == u + [w] <==> s == u && v == w
  {
    assert (s + [v])[..|s|] == s && (u + [w])[..|u|] == u;
    assert (s + [v])[|s|] == v && (u + [w])[|u|] == w;
  }

  lemma NodeFrame(cells: Cells, cells': Cells, at: Places, at': Places, s: Name, t: Tree)
    requires NodeAt(cells, at, s, t) && Extends(at, at') && |cells'| == |cells|
    requires SameNode(cells[at[s + [t.value]]], cells'[at[s + [t.value]]])
    ensures NodeAt(cells', at', s, t)
  {
  }

  // A tree stays laid out as long as its own cells keep their node fields.
  lemma TreeFrame(cells: Cells, cells': Cells, at: Places, at': Places, s: Name, t: Tree)
    requires TreeAt(cells, at, s, t) && Extends(at, at') && |cells'| == |cells| && Indexed(t, 0, 0x100)
    requires cells'[at[s]].symbols == cells[at[s]].symbols
    requires forall w <- Values(t) | s + [w] in at && at[s + [w]] < |cells| :: SameNode(cells[at[s + [w]]], cells'[at[s + [w]]])
    ensures TreeAt(cells', at', s, t)
  {
    forall w <- Values(t)
      ensures NodeAt(cells', at', s, Find(t, w))
    {
      FindIn(t, w, 0, 0x100);
      NodeFrame(cells, cells', at, at', s, Find(t, w));
    }
  }

  predicate SameContext(a: Symbol, b: Symbol) {
    a.symbols == b.symbols && a.escapes == b.escapes && a.total == b.total && a.parent == b.parent
  }

  predicate SameHead(a: Symbol, b: Symbol) {
    a.escapes == b.escapes && a.total == b.total && a.parent == b.parent
  }

  ghost predicate IsSymbolOf(u: Name, s: Name) {
    |u| == |s| + 1 && u[..|s|] == s
  }

  // The subtree in which the insertion of `v` into `cur` continues.
  ghost function Onward(cur: Tree, v: Byte): Tree
    requires cur.Node?
  {
    if v < cur.value then cur.left else if v > cur.value then cur.right else Leaf
  }

  // Nodes an insertion leaves behind, other than the one it stands on, keep their subtrees.
  lemma LeftBehind(t: Tree, v: Byte, update: nat, cur: Tree, lo: int, hi: int, w: Byte)
    requires Indexed(t, 0, 0x100) && Indexed(cur, lo, hi) && 0 <= lo <= v < hi <= 0x100 && 0 < update
    requires cur.Node? && Find(t, cur.value) == cur
    requires Find(Insert(t, v, update), cur.value) == Insert(cur, v, update)
    requires w in Values(cur) && w !in Values(Onward(cur, v)) && w != cur.value
    ensures Find(Insert(t, v, update), w) == Find(t, w)
  {
    InsertIndexed(t, v, update, 0, 0x100);
    InsertIndexed(cur, v, update, lo, hi);
    FindThrough(t, cur.value, w, 0, 0x100);
    FindThrough(Insert(t, v, update), cur.value, w, 0, 0x100);
    OffPath(cur, lo, hi, v, update, w);
  }

  lemma ChildOfFound(t: Tree, v: Byte, update: nat, cur: Tree, lo: int, hi: int)
    requires Indexed(t, 0, 0x100) && Indexed(cur, lo, hi) && 0 <= lo <= v < hi <= 0x100 && 0 < update
    requires cur.Node? && Find(t, cur.value) == cur && Onward(cur, v).Node?
    requires Find(Insert(t, v, update), cur.value) == Insert(cur, v, update)
    ensures var next := Onward(cur, v);
      && next.value in Values(t) && Find(t, next.value) == next && Find(Insert(t, v, update), next.value) == Insert(next, v, update)
  {
    InsertIndexed(t, v, update, 0, 0x100);
    InsertIndexed(cur, v, update, lo, hi);
    FindThrough(t, cur.value, Onward(cur, v).value, 0, 0x100);
    FindThrough(Insert(t, v, update), cur.value, Onward(cur, v).value, 0, 0x100);
  }

  lemma OffPath(cur: Tree, lo: int, hi: int, v: Byte, update: nat, w: Byte)
    requires Indexed(cur, lo, hi) && cur.Node?
    requires w in Values(cur) && w !in Values(Onward(cur, v)) && w != cur.value
    ensures Find(Insert(cur, v, update), w) == Find(cur, w)
  {
    FindIn(cur.left, w, lo, cur.value);
    FindIn(cur.right, w, cur.value + 1, hi);
  }

  // The descent that counts symbol `v` in the tree `t` of context `s`, from the cells
  // `start` of which the first `used` are in use.
  datatype Descent = Descent(start: Cells, at: Places, used: nat, s: Name, t: Tree, v: Byte, update: Byte) {

    ghost predicate Valid() {
      && Placed(at, used) && used < |start| && 0 < update
      && Indexed(t, 0, 0x100) && NodesAt(start, at, s, t)
      && (v in Values(t) <==> s + [v] in at)
    }

    // The tree and the places the descent leads to.
    ghost function Target(): Tree {
      Insert(t, v, update)
    }

    ghost function Grown(): Places {
      if s + [v] in at then at else at[s + [v] := used]
    }

    // No cell in use has changed, except for the tree fields of the symbols of context `s`.
    ghost predicate Confined(cells: Cells) {
      && |cells| == |start|
      && (forall i | 0 <= i < used && i < |cells| :: SameContext(cells[i], start[i]))
      && (forall u <- at | !IsSymbolOf(u, s) && at[u] < |cells| :: cells[at[u]] == start[at[u]])
    }

    // Node `w` lays out the old tree if it is still ahead, in `cur`, and the new one if not.
    ghost predicate Midway(cells: Cells, cur: Tree, w: Byte) {
      if w in Values(cur) then NodeAt(cells, at, s, Find(t, w)) else NodeAt(cells, Grown(), s, Find(Target(), w))
    }

    // The descent stands at cell `node`, the root of the subtree `cur` of `t`.
    ghost predicate Reached(cells: Cells, cur: Tree, lo: int, hi: int, node: nat) {
      && cur.Node? && cur.value in Values(t) && Find(t, cur.value) == cur
      && Find(Target(), cur.value) == Insert(cur, v, update)
      && Indexed(cur, lo, hi) && 0 <= lo <= v < hi <= 0x100 && Find(t, v) == Find(cur, v)
      && Confined(cells)
      && (forall w <- Values(t) {:trigger Midway(cells, cur, w)} :: Midway(cells, cur, w))
      && s + [cur.value] in at && node == at[s + [cur.value]]
    }

    ghost predicate Finished(cells: Cells) {
      && Confined(cells) && NodesAt(cells, Grown(), s, Target())
      && (s + [v] !in at ==> used < |cells| && cells[used] == NewSymbol(v, update))
    }

    lemma TreePlaced(w: Byte)
      requires Valid() && w in Values(t)
      ensures s + [w] in at && at[s + [w]] < used && Find(t, w).Node? && Find(t, w).value == w
    {
      FindIn(t, w, 0, 0x100);
      assert NodeAt(start, at, s, Find(t, w));
    }

    lemma Begin()
      requires Valid() && t.Node?
      ensures s + [t.value] in at && Reached(start, t, 0, 0x100, at[s + [t.value]])
    {
      TreePlaced(t.value);
      assert forall w <- Values(t) :: Midway(start, t, w);
    }

    // The cell the descent stands on holds the root of `cur`.
    lemma Standing(cells: Cells, cur: Tree, lo: int, hi: int, node: nat)
      requires Valid() && Reached(cells, cur, lo, hi, node)
      ensures node < used < |cells| == |start| && s + [cur.value] in at && NodeAt(cells, at, s, cur)
      ensures cells[node].value == cur.value
      ensures cells[node].left != 0 <==> cur.left.Node?
      ensures cells[node].right != 0 <==> cur.right.Node?
      ensures cells[node].under <= Weight(t)
      ensures if v == cur.value then
                cells[node].count == CountOf(t, v) && cells[node].under - cells[node].count == WeightBelow(cur, v)
              else if v < cur.value then WeightBelow(cur.left, v) == WeightBelow(cur, v)
              else cells[node].under + WeightBelow(cur.right, v) == WeightBelow(cur, v)
      ensures v == cur.value ==> s + [v] in at && at[s + [v]] == node
      ensures v != cur.value && Onward(cur, v).Leaf? ==> s + [v] !in at
    {
      TreePlaced(cur.value);
      FindWeight(t, cur.value);
      FindIn(t, v, 0, 0x100);
      WeightBelowEnds(cur.left, lo, cur.value, v);
      assert Midway(cells, cur, cur.value);
      assert v != cur.value ==> Find(cur, v) == Find(Onward(cur, v), v);
    }

    lemma ChildFound(cells: Cells, cur: Tree, lo: int, hi: int, node: nat)
      requires Valid() && Reached(cells, cur, lo, hi, node) && Onward(cur, v).Node?
      ensures var next := Onward(cur, v);
        && next.value in Values(t) && Find(t, next.value) == next && Find(Target(), next.value) == Insert(next, v, update)
    {
      ChildOfFound(t, v, update, cur, lo, hi);
    }

    lemma StepAt(cells: Cells, cells': Cells, cur: Tree, lo: int, hi: int, node: nat, w: Byte)
      requires Valid() && Reached(cells, cur, lo, hi, node) && w in Values(t) && |cells'| == |cells|
      requires NodeAt(cells', Grown(), s, Insert(cur, v, update))
      requires forall i | 0 <= i < used && i != node :: SameNode(cells'[i], cells[i])
      ensures Midway(cells', Onward(cur, v), w)
    {
      TreePlaced(w);
      assert Midway(cells, cur, w);
      assert Values(Onward(cur, v)) <= Values(cur) && cur.value !in Values(Onward(cur, v)) by {
        FindIn(cur.left, cur.value, lo, cur.value);
        FindIn(cur.right, cur.value, cur.value + 1, hi);
      }
      assert w != cur.value ==> at[s + [w]] != node by {
        NamesDiffer(s, w, s, cur.value);
      }
      if w in Values(Onward(cur, v)) {
        NodeFrame(cells, cells', at, at, s, Find(t, w));
      } else if w == cur.value {
      } else if w in Values(cur) {
        LeftBehind(t, v, update, cur, lo, hi, w);
        NodeFrame(cells, cells', at, Grown(), s, Find(t, w));
      } else {
        NodeFrame(cells, cells', Grown(), Grown(), s, Find(Target(), w));
      }
    }

    // Going left counts `v` in the node it leaves; going right does not.
    lemma GoLeft(cells: Cells, cells': Cells, cur: Tree, lo: int, hi: int, node: nat)
      requires Valid() && Reached(cells, cur, lo, hi, node) && v < cur.value && cur.left.Node? && node < |cells|
      requires cells[node].under + update <= 0xFFFF
      requires cells' == cells[node := CountBelow(cells[node], update)]
      ensures Reached(cells', cur.left, lo, cur.value, node + cells[node].left)
    {
      Standing(cells, cur, lo, hi, node);
      Step(cells, cells', cur, lo, hi, node);
    }

    lemma GoRight(cells: Cells, cur: Tree, lo: int, hi: int, node: nat)
      requires Valid() && Reached(cells, cur, lo, hi, node) && v > cur.value && cur.right.Node? && node < |cells|
      ensures Reached(cells, cur.right, cur.value + 1, hi, node + cells[node].right)
    {
      Standing(cells, cur, lo, hi, node);
      Step(cells, cells, cur, lo, hi, node);
    }

    // Going on into a subtree, once the node above it is up to date.
    lemma Step(cells: Cells, cells': Cells, cur: Tree, lo: int, hi: int, node: nat)
      requires Valid() && Reached(cells, cur, lo, hi, node) && Onward(cur, v).Node? && node < |cells|
      requires |cells'| == |cells| && cells' == cells[node := cells'[node]] && SameContext(cells'[node], cells[node])
      requires NodeAt(cells', Grown(), s, Insert(cur, v, update))
      ensures v < cur.value ==> Reached(cells', cur.left, lo, cur.value, node + cells[node].left)
      ensures v > cur.value ==> Reached(cells', cur.right, cur.value + 1, hi, node + cells[node].right)
    {
      Standing(cells, cur, lo, hi, node);
      ChildFound(cells, cur, lo, hi, node);
      ConfinedStep(cells, cells', cur, lo, hi, node);
      forall w <- Values(t)
        ensures Midway(cells', Onward(cur, v), w)
      {
        StepAt(cells, cells', cur, lo, hi, node, w);
      }
    }

    lemma ConfinedStep(cells: Cells, cells': Cells, cur: Tree, lo: int, hi: int, node: nat)
      requires Valid() && Reached(cells, cur, lo, hi, node) && |cells'| == |cells|
      requires forall i | 0 <= i < used && i != node :: cells'[i] == cells[i]
      requires node < used && SameContext(cells'[node], cells[node])
      ensures Confined(cells')
    {
      assert (s + [cur.value])[..|s|] == s;
    }

    lemma CreateLeft(cells: Cells, cells': Cells, cur: Tree, lo: int, hi: int, node: nat)
      requires Valid() && Reached(cells, cur, lo, hi, node) && v < cur.value && cur.left.Leaf?
      requires node < used < |cells| <= 0x1_0000 && cells[node].under + update <= 0xFFFF
      requires cells' == cells[used := NewSymbol(v, update)]
                              [node := CountBelow(cells[node], update).(left := used - node)]
      ensures Finished(cells')
      ensures s + [v] !in at && s + [v] in Grown() && Grown()[s + [v]] == used && CountOf(t, v) == 0
      ensures WeightBelow(cur.left, v) == 0
    {
      Standing(cells, cur, lo, hi, node);
      FindIn(t, v, 0, 0x100);
      Finish(cells, cells', cur, lo, hi, node);
    }

    lemma CreateRight(cells: Cells, cells': Cells, cur: Tree, lo: int, hi: int, node: nat)
      requires Valid() && Reached(cells, cur, lo, hi, node) && v > cur.value && cur.right.Leaf?
      requires node < used < |cells| <= 0x1_0000
      requires cells' == cells[used := NewSymbol(v, update)][node := cells[node].(right := used - node)]
      ensures Finished(cells')
      ensures s + [v] !in at && s + [v] in Grown() && Grown()[s + [v]] == used && CountOf(t, v) == 0
      ensures WeightBelow(cur.right, v) == 0
    {
      Standing(cells, cur, lo, hi, node);
      FindIn(t, v, 0, 0x100);
      Finish(cells, cells', cur, lo, hi, node);
    }

    lemma CountFound(cells: Cells, cells': Cells, cur: Tree, lo: int, hi: int, node: nat)
      requires Valid() && Reached(cells, cur, lo, hi, node) && v == cur.value && node < |cells|
      requires cells[node].under + update <= 0xFFFF && cells[node].count + update <= 0xFF
      requires cells' == cells[node := CountHere(cells[node], update)]
      ensures Finished(cells') && s + [v] in Grown() && s + [v] in at && Grown()[s + [v]] == node
    {
      Standing(cells, cur, lo, hi, node);
      FindIn(t, v, 0, 0x100);
      Finish(cells, cells', cur, lo, hi, node);
    }

    // The descent ends on a node it creates a child for, or on the node of `v` itself.
    lemma Finish(cells: Cells, cells': Cells, cur: Tree, lo: int, hi: int, node: nat)
      requires Valid() && Reached(cells, cur, lo, hi, node) && Onward(cur, v).Leaf? && |cells'| == |cells|
      requires node < used && SameContext(cells'[node], cells[node])
      requires forall i | 0 <= i < used && i != node :: cells'[i] == cells[i]
      requires NodeAt(cells', Grown(), s, Insert(cur, v, update))
      requires s + [v] !in at ==> cells'[used] == NewSymbol(v, update)
      ensures Finished(cells')
    {
      ConfinedStep(cells, cells', cur, lo, hi, node);
      forall w <- Values(t)
        ensures Midway(cells', Leaf, w)
      {
        StepAt(cells, cells', cur, lo, hi, node, w);
      }
      AllUpToDate(cells');
    }

    lemma AllUpToDate(cells: Cells)
      requires Valid() && |cells| == |start|
      requires forall w <- Values(t) :: Midway(cells, Leaf, w)
      requires s + [v] !in at ==> cells[used] == NewSymbol(v, update)
      ensures NodesAt(cells, Grown(), s, Target())
    {
      InsertIndexed(t, v, update, 0, 0x100);
      forall w <- Values(Target())
        ensures NodeAt(cells, Grown(), s, Find(Target(), w))
      {
        if w in Values(t) {
          assert Midway(cells, Leaf, w);
        } else {
          InsertNew(t, v, update, 0, 0x100);
        }
      }
    }

    // ---- decoding ----

    // The comparisons of the decoder tell on which side of a node the symbol lies, and where
    // the tree ends they give away its value.
    lemma DecodeSide(cells: Cells, cur: Tree, lo: int, hi: int, node: nat, under: nat, code: int, minimum: nat)
      requires Valid() && Reached(cells, cur, lo, hi, node) && minimum <= 1 && node < |cells|
      requires v * minimum + WeightBelow(t, v) <= code < v * minimum + WeightBelow(t, v) + CountOf(t, v) + minimum
      requires under == WeightBelow(t, v) - WeightBelow(cur, v)
      ensures cur.Node?
      ensures var after := under + cells[node].under + (cells[node].value + 1) * minimum;
              var before := cells[node].count + minimum;
        && (code >= after <==> v > cur.value)
        && (code < after - before <==> v < cur.value)
        && (v > cur.value && cur.right.Leaf? ==> minimum == 1 && code - after == v - cur.value - 1)
        && (v < cur.value && cur.left.Leaf? ==> minimum == 1 && after - before - code - 1 == cur.value - v - 1)
        && (v == cur.value ==> after - before == v * minimum + WeightBelow(t, v))
      ensures v > cur.value && cur.right.Leaf? ==> code == v * minimum + WeightBelow(t, v) && CountOf(t, v) == 0
      ensures v < cur.value && cur.left.Leaf? ==> code == v * minimum + WeightBelow(t, v) && CountOf(t, v) == 0
      ensures under + cells[node].under <= 2 * Weight(t) && (v > cur.value ==> under + cells[node].under <= Weight(t))
    {
      hide *;
      Standing(cells, cur, lo, hi, node);
      BelowInNode(cells, cur, lo, hi, node);
      DecideNode(cells[node], cur, under, code, minimum, WeightBelow(t, v), CountOf(t, v), WeightBelow(cur, v));
      WeightBelowLimit(t, v);
    }

    lemma DecideNode(cell: Symbol, cur: Tree, under: nat, code: int, minimum: nat, weight: nat, count: nat, ahead: nat)
      requires cur.Node? && under == weight - ahead && cell.under == cur.under && cell.count == cur.count && cell.value == cur.value
      requires cell.count <= cell.under && minimum <= 1
      requires v * minimum + weight <= code < v * minimum + weight + count + minimum
      requires v < cur.value ==> ahead + count <= cell.under - cell.count
      requires v < cur.value && cur.left.Leaf? ==> count == 0 && cell.under == cell.count
      requires v == cur.value ==> ahead == cell.under - cell.count && count == cell.count
      requires v > cur.value ==> ahead >= cell.under
      requires v > cur.value && cur.right.Leaf? ==> ahead == cell.under && count == 0
      ensures var after := under + cell.under + (cell.value + 1) * minimum;
              var before := cell.count + minimum;
        && (code >= after <==> v > cur.value)
        && (code < after - before <==> v < cur.value)
        && (v > cur.value && cur.right.Leaf? ==> minimum == 1 && code - after == v - cur.value - 1 && code == v * minimum + weight && count == 0)
        && (v < cur.value && cur.left.Leaf? ==> minimum == 1 && after - before - code - 1 == cur.value - v - 1 && code == v * minimum + weight && count == 0)
        && (v == cur.value ==> after - before == v * minimum + weight)
    {
      assert minimum == 0 || minimum == 1;
      if minimum == 1 {
        assert v * minimum == v && (cell.value + 1) * minimum == cell.value + 1;
      }
    }

    lemma BelowInNode(cells: Cells, cur: Tree, lo: int, hi: int, node: nat)
      requires Valid() && Reached(cells, cur, lo, hi, node) && node < |cells|
      ensures cur.Node? && CountOf(t, v) == CountOf(cur, v) && cells[node].count == cur.count <= cur.under == cells[node].under
      ensures v < cur.value ==> WeightBelow(cur, v) + CountOf(t, v) <= cur.under - cur.count
      ensures v < cur.value && cur.left.Leaf? ==> CountOf(t, v) == 0 && cur.under == cur.count
      ensures v == cur.value ==> WeightBelow(cur, v) == cur.under - cur.count && CountOf(t, v) == cur.count
      ensures v > cur.value ==> WeightBelow(cur, v) >= cur.under
      ensures v > cur.value && cur.right.Leaf? ==> WeightBelow(cur, v) == cur.under && CountOf(t, v) == 0
    {
      StandingIn(cells, cur, lo, hi, node);
      hide Descent.Valid, Descent.Reached, Indexed, WeightBelow, Find;
      CountsBelow(cur, v, lo, hi);
    }

    lemma StandingIn(cells: Cells, cur: Tree, lo: int, hi: int, node: nat)
      requires Valid() && Reached(cells, cur, lo, hi, node)
      ensures node < |cells| && cur.Node? && Indexed(cur, lo, hi) && Find(t, v) == Find(cur, v)
      ensures cells[node].count == cur.count && cells[node].under == cur.under
    {
      Standing(cells, cur, lo, hi, node);
    }

    lemma EmptySlice(code: int, minimum: nat)
      requires t.Leaf? && minimum <= 1
      requires v * minimum + WeightBelow(t, v) <= code < v * minimum + WeightBelow(t, v) + CountOf(t, v) + minimum
      ensures minimum == 1 && code == v
    {
    }

    // ---- after the descent ----

    // The context lays out the new tree and all other contexts still lay out theirs.
    ghost predicate Complete(cells: Cells) {
      && |cells| == |start| && s in at && at[s] < used
      && (forall i | 0 <= i < used && i < |cells| :: SameHead(cells[i], start[i]) && (i != at[s] ==> cells[i].symbols == start[i].symbols))
      && (forall u <- at | !IsSymbolOf(u, s) && at[u] < |cells| :: SameNode(cells[at[u]], start[at[u]]))
      && TreeAt(cells, Grown(), s, Target())
      && (s + [v] !in at ==> used < |cells| && cells[used] == NewSymbol(v, update))
    }

    lemma Attached(cells: Cells)
      requires Valid() && Finished(cells) && TreeAt(start, at, s, t) && t.Node?
      ensures Complete(cells)
    {
      hide TreeAt, NodesAt, Insert, Indexed, Find;
      RootStays(cells);
    }

    // The root is the same node as before.
    lemma RootStays(cells: Cells)
      requires Valid() && Finished(cells) && TreeAt(start, at, s, t) && t.Node?
      ensures TreeAt(cells, Grown(), s, Target()) && s in at && at[s] < used
      ensures cells[at[s]].symbols == start[at[s]].symbols
    {
      hide NodesAt, Indexed, Find;
    }

    lemma CompleteFacts(cells: Cells)
      requires Valid() && Complete(cells)
      ensures |cells| == |start| && Extends(at, Grown()) && s + [v] in Grown()
      ensures s in at ==> s in Grown() && Grown()[s] == at[s]
      ensures Grown()[s + [v]] == if s + [v] in at then at[s + [v]] else used
      ensures forall i | 0 <= i < used && i < |cells| :: SameHead(cells[i], start[i])
      ensures s + [v] !in at ==> used < |cells| && cells[used].total == 0 && cells[used].parent == 0
      ensures t.Leaf? ==> s + [v] !in at && CountOf(t, v) == 0
    {
    }

    lemma AttachedFirst(cells: Cells, cells': Cells, offset: U16)
      requires Valid() && t.Leaf? && s in at && at[s] + offset == used && |start| == |cells|
      requires cells == start[used := NewSymbol(v, update)]
      requires cells' == cells[at[s] := cells[at[s]].(symbols := offset)]
      ensures Complete(cells')
    {
      AllUpToDate(cells);
      assert (s + [v])[|s|] == v;
      NodeFrame(cells, cells', Grown(), Grown(), s, Target());
    }

    lemma OtherTree(cells: Cells, u: Name, tu: Tree)
      requires Valid() && Complete(cells) && u in at && u != s && TreeAt(start, at, u, tu) && Indexed(tu, 0, 0x100)
      ensures TreeAt(cells, Grown(), u, tu)
    {
      CompleteFacts(cells);
      forall w <- Values(tu)
        ensures u + [w] in at && at[u + [w]] < used && SameNode(start[at[u + [w]]], cells[at[u + [w]]])
      {
        FindIn(tu, w, 0, 0x100);
        assert NodeAt(start, at, u, Find(tu, w));
        OtherNode(cells, u, w);
      }
      OtherSymbols(cells, u);
      hide Descent.Valid, Descent.Complete, NodesAt;
      TreeFrame(start, cells, at, Grown(), u, tu);
    }

    lemma OtherNode(cells: Cells, u: Name, w: Byte)
      requires Valid() && Complete(cells) && u != s && u + [w] in at
      ensures at[u + [w]] < used <= |start| == |cells| && SameNode(start[at[u + [w]]], cells[at[u + [w]]])
    {
      assert (u + [w])[..|u|] == u;
    }

    lemma OtherSymbols(cells: Cells, u: Name)
      requires Valid() && Complete(cells) && u in at && u != s
      ensures at[u] < used <= |start| == |cells| && cells[at[u]].symbols == start[at[u]].symbols
    {
    }
  }

  // The pass that halves the counters of the tree `t` of context `s`, in ascending order of
  // the values on the right spine, from the cells `start`.
  datatype Halving = Halving(start: Cells, at: Places, used: nat, s: Name, t: Tree) {

    ghost predicate Valid() {
      && Placed(at, used) && used <= |start| && t.Node?
      && Indexed(t, 0, 0x100) && NodesAt(start, at, s, t) && Weight(t) <= 0xFFFF
    }

    // The cells of the context's symbols with values in `vs` are the only ones that change,
    // and only in their tree fields.
    ghost predicate ConfinedTo(cells: Cells, cells': Cells, vs: set<Byte>) {
      && |cells'| == |cells|
      && (forall i | 0 <= i < |cells| && i < |cells'| :: SameContext(cells'[i], cells[i]))
      && (forall u <- at | at[u] < |cells| && at[u] < |cells'| && !IsValueOf(u, vs) :: cells'[at[u]] == cells[at[u]])
    }

    ghost predicate IsValueOf(u: Name, vs: set<Byte>) {
      |u| == |s| + 1 && u[..|s|] == s && u[|s|] in vs
    }

    ghost predicate Midway(cells: Cells, cur: Tree, w: Byte) {
      NodeAt(cells, at, s, if w in Values(cur) then Find(t, w) else Halve(Find(t, w)))
    }

    // The pass stands at cell `node`, the root of the subtree `cur` on the right spine.
    ghost predicate Reached(cells: Cells, cur: Tree, lo: int, node: nat) {
      && cur.Node? && cur.value in Values(t) && Find(t, cur.value) == cur
      && Indexed(cur, lo, 0x100) && 0 <= lo
      && ConfinedTo(start, cells, Values(t))
      && (forall w <- Values(t) {:trigger Midway(cells, cur, w)} :: Midway(cells, cur, w))
      && s + [cur.value] in at && node == at[s + [cur.value]]
    }

    ghost predicate Finished(cells: Cells) {
      ConfinedTo(start, cells, Values(t)) && NodesAt(cells, at, s, Halve(t))
    }

    lemma Begin()
      requires Valid()
      ensures s + [t.value] in at && Reached(start, t, 0, at[s + [t.value]])
      ensures Weight(Halve(t)) <= Weight(t) <= 0xFFFF
    {
      HalveWeight(t);
      forall w <- Values(t)
        ensures Midway(start, t, w)
      {
        FindIn(t, w, 0, 0x100);
      }
      assert NodeAt(start, at, s, Find(t, t.value));
    }

    lemma Standing(cells: Cells, cur: Tree, lo: int, node: nat)
      requires Valid() && Reached(cells, cur, lo, node)
      ensures node < used <= |cells| == |start| && s + [cur.value] in at && at[s + [cur.value]] == node
      ensures cells[node].value == cur.value && cells[node].count == cur.count
      ensures cells[node].left != 0 <==> cur.left.Node?
      ensures cells[node].right != 0 <==> cur.right.Node?
      ensures cur.left.Node? ==> s + [cur.left.value] in at && at[s + [cur.left.value]] == node + cells[node].left
      ensures cur.right.Node? ==> s + [cur.right.value] in at && at[s + [cur.right.value]] == node + cells[node].right
      ensures Halve(cur).Node? && Halve(cur).count == cur.count - cur.count / 2
      ensures Halve(cur).under == cur.count - cur.count / 2 + Weight(Halve(cur.left))
      ensures Weight(Halve(cur)) == Halve(cur).under + Weight(Halve(cur.right)) <= Weight(t)
      ensures Weight(Halve(cur.left)) <= Weight(t) && Weight(cur.left) <= Weight(t)
      ensures cur.left.Leaf? ==> Weight(Halve(cur.left)) == 0
      ensures cur.right.Leaf? ==> Weight(Halve(cur.right)) == 0
      ensures Weight(t) <= 0xFFFF
    {
      assert Midway(cells, cur, cur.value);
      FindWeight(t, cur.value);
      HalveWeight(cur);
      HalveWeight(cur.left);
    }

    // The left subtree can be halved by a pass of its own.
    lemma LeftPass(cells: Cells, cells': Cells, cur: Tree, lo: int, node: nat)
      requires Valid() && Reached(cells, cur, lo, node) && cur.left.Node? && node < |cells|
      requires |cells'| == |cells| && cells' == cells[node := cells'[node]]
      ensures Halving(cells', at, used, s, cur.left).Valid()
    {
      Standing(cells, cur, lo, node);
      Widen(cur.left, lo, cur.value, 0, 0x100);
      forall w <- Values(cur.left)
        ensures NodeAt(cells', at, s, Find(cur.left, w))
      {
        FindIn(cur.left, w, lo, cur.value);
        FindThrough(t, cur.value, w, 0, 0x100);
        assert Midway(cells, cur, w);
        NamesDiffer(s, w, s, cur.value);
        NodeFrame(cells, cells', at, at, s, Find(cur.left, w));
      }
    }

    // Where a value lies, seen from the subtree the pass stands on.
    lemma Placing(cells: Cells, cur: Tree, lo: int, node: nat, w: Byte)
      requires Valid() && Reached(cells, cur, lo, node) && w in Values(t)
      ensures w in Values(cur.left) ==>
                w in Values(cur) && w !in Values(cur.right) && w != cur.value && Find(t, w) == Find(cur.left, w) && Find(t, w).Node?
      ensures w == cur.value ==> w in Values(cur) && w !in Values(cur.right) && Find(t, w) == cur
      ensures w !in Values(cur.left) && w != cur.value ==> (w in Values(cur) <==> w in Values(cur.right))
    {
      FindIn(t, w, 0, 0x100);
      FindIn(cur.left, w, lo, cur.value);
      FindIn(cur.right, w, cur.value + 1, 0x100);
      if w in Values(cur) {
        FindThrough(t, cur.value, w, 0, 0x100);
      }
    }

    lemma StepAt(cells: Cells, cells': Cells, cur: Tree, lo: int, node: nat, w: Byte)
      requires Valid() && Reached(cells, cur, lo, node) && w in Values(t)
      requires ConfinedTo(cells, cells', Values(cur.left) + {cur.value})
      requires NodesAt(cells', at, s, Halve(cur.left)) && NodeAt(cells', at, s, Halve(cur))
      ensures Midway(cells', cur.right, w)
    {
      Placing(cells, cur, lo, node, w);
      if w in Values(cur.left) {
        HalveIndexed(cur.left, lo, cur.value);
        HalveFind(cur.left, w);
      } else if w != cur.value {
        assert Midway(cells, cur, w);
        FarNode(cells, cells', cur, w);
      }
    }

    lemma FarNode(cells: Cells, cells': Cells, cur: Tree, w: Byte)
      requires cur.Node? && Midway(cells, cur, w) && Valid() && w in Values(t)
      requires ConfinedTo(cells, cells', Values(cur.left) + {cur.value})
      requires w !in Values(cur.left) && w != cur.value && (w in Values(cur) <==> w in Values(cur.right))
      ensures Midway(cells', cur.right, w)
    {
      FindIn(t, w, 0, 0x100);
      assert (s + [w])[..|s|] == s && (s + [w])[|s|] == w;
      NodeFrame(cells, cells', at, at, s, if w in Values(cur) then Find(t, w) else Halve(Find(t, w)));
    }

    lemma Step(cells: Cells, cells': Cells, cur: Tree, lo: int, node: nat)
      requires Valid() && Reached(cells, cur, lo, node) && node < |cells|
      requires ConfinedTo(cells, cells', Values(cur.left) + {cur.value})
      requires NodesAt(cells', at, s, Halve(cur.left)) && NodeAt(cells', at, s, Halve(cur))
      ensures cur.right.Node? ==> Reached(cells', cur.right, cur.value + 1, node + cells[node].right)
      ensures cur.right.Leaf? ==> Finished(cells')
    {
      ConfinedStep(cells, cells', cur, lo, node);
      AllMidway(cells, cells', cur, lo, node);
      if cur.right.Node? {
        Onward(cells, cur, lo, node);
      } else {
        assert cur.right == Leaf;
        AllHalved(cells');
      }
    }

    lemma AllMidway(cells: Cells, cells': Cells, cur: Tree, lo: int, node: nat)
      requires Valid() && Reached(cells, cur, lo, node)
      requires ConfinedTo(cells, cells', Values(cur.left) + {cur.value})
      requires NodesAt(cells', at, s, Halve(cur.left)) && NodeAt(cells', at, s, Halve(cur))
      ensures forall w <- Values(t) :: Midway(cells', cur.right, w)
    {
      hide Midway, ConfinedTo, NodesAt, NodeAt, Find, Halve;
      forall w <- Values(t)
        ensures Midway(cells', cur.right, w)
      {
        StepAt(cells, cells', cur, lo, node, w);
      }
    }

    lemma Onward(cells: Cells, cur: Tree, lo: int, node: nat)
      requires Valid() && Reached(cells, cur, lo, node) && cur.right.Node? && node < |cells|
      ensures cur.right.value in Values(t) && Find(t, cur.right.value) == cur.right
      ensures s + [cur.right.value] in at && at[s + [cur.right.value]] == node + cells[node].right
      ensures Indexed(cur.right, cur.value + 1, 0x100)
    {
      Standing(cells, cur, lo, node);
      assert Indexed(cur.right, cur.value + 1, 0x100);
      FindThrough(t, cur.value, cur.right.value, 0, 0x100);
    }

    lemma ConfinedStep(cells: Cells, cells': Cells, cur: Tree, lo: int, node: nat)
      requires Valid() && Reached(cells, cur, lo, node)
      requires ConfinedTo(cells, cells', Values(cur.left) + {cur.value})
      ensures ConfinedTo(start, cells', Values(t))
    {
      forall w <- Values(cur.left) + {cur.value}
        ensures w in Values(t)
      {
        FindThrough(t, cur.value, w, 0, 0x100);
      }
    }

    lemma AllHalved(cells: Cells)
      requires Valid() && forall w <- Values(t) :: Midway(cells, Leaf, w)
      ensures NodesAt(cells, at, s, Halve(t))
    {
      HalveIndexed(t, 0, 0x100);
      forall w <- Values(Halve(t))
        ensures NodeAt(cells, at, s, Find(Halve(t), w))
      {
        HalveFind(t, w);
        assert Midway(cells, Leaf, w);
      }
    }

    // One node: its counter is halved, then its left subtree, then `under` is rebuilt.
    lemma NodeHalved(cells: Cells, halved: Cells, passed: Cells, cells': Cells, cur: Tree, lo: int, node: nat)
      requires Valid() && Reached(cells, cur, lo, node) && node < |cells| == |passed|
      requires halved == cells[node := HalvedSymbol(cells[node])]
      requires if cur.left.Node? then Halving(halved, at, used, s, cur.left).Finished(passed) else passed == halved
      requires passed[node].under + Weight(Halve(cur.left)) <= 0xFFFF
      requires cells' == passed[node := AddUnder(passed[node], Weight(Halve(cur.left)))]
      ensures cells'[node].under == Halve(cur).under && cells'[node].right == cells[node].right
      ensures cur.right.Node? ==> Reached(cells', cur.right, cur.value + 1, node + cells[node].right)
      ensures cur.right.Leaf? ==> Finished(cells')
    {
      Standing(cells, cur, lo, node);
      FindIn(cur.left, cur.value, lo, cur.value);
      NodeConfined(cells, halved, passed, cells', cur, lo, node);
      NodeKept(cells, halved, passed, cells', cur, lo, node);
      LeftHalved(cells, halved, passed, cells', cur, lo, node);
      Step(cells, cells', cur, lo, node);
    }

    lemma NodeConfined(cells: Cells, halved: Cells, passed: Cells, cells': Cells, cur: Tree, lo: int, node: nat)
      requires Valid() && Reached(cells, cur, lo, node) && node < |cells| == |passed|
      requires halved == cells[node := HalvedSymbol(cells[node])]
      requires if cur.left.Node? then Halving(halved, at, used, s, cur.left).Finished(passed) else passed == halved
      requires passed[node].under + Weight(Halve(cur.left)) <= 0xFFFF
      requires cells' == passed[node := AddUnder(passed[node], Weight(Halve(cur.left)))]
      ensures ConfinedTo(cells, cells', Values(cur.left) + {cur.value})
    {
      assert (s + [cur.value])[..|s|] == s && (s + [cur.value])[|s|] == cur.value;
    }

    lemma NodePassed(cells: Cells, halved: Cells, passed: Cells, cur: Tree, lo: int, node: nat)
      requires Valid() && Reached(cells, cur, lo, node) && node < |cells| == |passed|
      requires halved == cells[node := HalvedSymbol(cells[node])]
      requires if cur.left.Node? then Halving(halved, at, used, s, cur.left).Finished(passed) else passed == halved
      ensures passed[node] == halved[node]
    {
      FindIn(cur.left, cur.value, lo, cur.value);
      assert (s + [cur.value])[|s|] == cur.value;
    }

    lemma NodeKept(cells: Cells, halved: Cells, passed: Cells, cells': Cells, cur: Tree, lo: int, node: nat)
      requires Valid() && Reached(cells, cur, lo, node) && node < |cells| == |passed|
      requires halved == cells[node := HalvedSymbol(cells[node])]
      requires if cur.left.Node? then Halving(halved, at, used, s, cur.left).Finished(passed) else passed == halved
      requires passed[node].under + Weight(Halve(cur.left)) <= 0xFFFF
      requires cells' == passed[node := AddUnder(passed[node], Weight(Halve(cur.left)))]
      ensures NodeAt(cells', at, s, Halve(cur))
    {
      Standing(cells, cur, lo, node);
      NodePassed(cells, halved, passed, cur, lo, node);
      assert Midway(cells, cur, cur.value);
    }

    lemma LeftHalved(cells: Cells, halved: Cells, passed: Cells, cells': Cells, cur: Tree, lo: int, node: nat)
      requires Valid() && Reached(cells, cur, lo, node) && node < |cells| == |passed| == |cells'|
      requires if cur.left.Node? then Halving(halved, at, used, s, cur.left).Finished(passed) else passed == halved
      requires cells' == passed[node := cells'[node]]
      ensures NodesAt(cells', at, s, Halve(cur.left))
    {
      HalveIndexed(cur.left, lo, cur.value);
      forall w <- Values(Halve(cur.left))
        ensures NodeAt(cells', at, s, Find(Halve(cur.left), w))
      {
        FindIn(Halve(cur.left), w, lo, cur.value);
        NamesDiffer(s, w, s, cur.value);
        NodeFrame(passed, cells', at, at, s, Find(Halve(cur.left), w));
      }
    }

    lemma HeadsKept(cells: Cells)
      requires Finished(cells)
      ensures |cells| == |start|
      ensures forall i | 0 <= i < |cells| && i < |start| ::
                cells[i].escapes == start[i].escapes && cells[i].total == start[i].total && cells[i].parent == start[i].parent
    {
    }
  }
}
