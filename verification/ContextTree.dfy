// The binary indexed tree that holds the frequency table of one context: a search tree by
// symbol value in which `under` counts a node together with its left subtree.

module ContextTree {
  import opened Words
  import opened FrequencyModel

  datatype Tree = Leaf | Node(value: Byte, count: nat, under: nat, left: Tree, right: Tree)

  function Values(t: Tree): set<Byte> {
    if t.Leaf? then {} else Values(t.left) + {t.value} + Values(t.right)
  }

  function Weight(t: Tree): nat {
    if t.Leaf? then 0 else Weight(t.left) + t.count + Weight(t.right)
  }

  function Size(t: Tree): nat {
    if t.Leaf? then 0 else Size(t.left) + 1 + Size(t.right)
  }

  lemma Smaller(t: Tree)
    requires t.Node?
    ensures Size(t.left) < Size(t) && Size(t.right) < Size(t)
  {
  }

  // A search tree over [lo, hi) whose nodes all have a positive count and the right `under`.
  ghost predicate Indexed(t: Tree, lo: int, hi: int) {
    t.Node? ==>
      && lo <= t.value < hi && 0 < t.count && t.under == t.count + Weight(t.left)
      && Indexed(t.left, lo, t.value) && Indexed(t.right, t.value + 1, hi)
  }

  // The subtree at which a search for `v` ends.
  ghost function Find(t: Tree, v: Byte): (r: Tree)
    ensures r.Node? ==> r.value == v
  {
    if t.Leaf? || t.value == v then t
    else if v < t.value then Find(t.left, v)
    else Find(t.right, v)
  }

  ghost function CountOf(t: Tree, v: Byte): nat {
    if Find(t, v).Leaf? then 0 else Find(t, v).count
  }

  // The weight of the values smaller than `v`, by the walk the coder makes.
  ghost function WeightBelow(t: Tree, v: int): nat {
    if t.Leaf? then 0
    else if v <= t.value then WeightBelow(t.left, v)
    else Weight(t.left) + t.count + WeightBelow(t.right, v)
  }

  ghost function Insert(t: Tree, v: Byte, update: nat): Tree {
    if t.Leaf? then Node(v, update, update, Leaf, Leaf)
    else if v < t.value then t.(under := t.under + update, left := Insert(t.left, v, update))
    else if v > t.value then t.(right := Insert(t.right, v, update))
    else t.(count := t.count + update, under := t.under + update)
  }

  ghost function Halve(t: Tree): Tree {
    if t.Leaf? then Leaf
    else
      Node(t.value, t.count - t.count / 2, t.count - t.count / 2 + Weight(Halve(t.left)), Halve(t.left), Halve(t.right))
  }

  // The tree holds exactly the frequency table `counts`.
  ghost predicate Holds(t: Tree, counts: Counts) {
    Indexed(t, 0, 0x100) && forall v: Byte :: CountOf(t, v) == counts[v]
  }

  // ---- finding ----

  lemma {:induction false} FindIn(t: Tree, v: Byte, lo: int, hi: int)
    requires Indexed(t, lo, hi)
    ensures Find(t, v).Node? <==> v in Values(t)
    ensures v in Values(t) ==> lo <= v < hi && 0 < CountOf(t, v)
  {
    if t.Node? {
      FindIn(t.left, v, lo, t.value);
      FindIn(t.right, v, t.value + 1, hi);
    }
  }

  // A search that passes through a subtree continues there.
  lemma {:induction false} FindThrough(t: Tree, x: Byte, v: Byte, lo: int, hi: int)
    requires Indexed(t, lo, hi) && Find(t, x).Node? && v in Values(Find(t, x))
    ensures Find(t, v) == Find(Find(t, x), v) && v in Values(t)
  {
    FindIn(t, x, lo, hi);
    if t.value != x {
      if x < t.value {
        FindThrough(t.left, x, v, lo, t.value);
        FindIn(t.left, v, lo, t.value);
      } else {
        FindThrough(t.right, x, v, t.value + 1, hi);
        FindIn(t.right, v, t.value + 1, hi);
      }
    }
  }

  lemma {:induction false} Widen(t: Tree, lo: int, hi: int, lo': int, hi': int)
    requires Indexed(t, lo, hi) && lo' <= lo && hi <= hi'
    ensures Indexed(t, lo', hi')
  {
    if t.Node? {
      Widen(t.left, lo, t.value, lo', t.value);
      Widen(t.right, t.value + 1, hi, t.value + 1, hi');
    }
  }

  // ---- weights ----

  lemma {:induction false} FindWeight(t: Tree, v: Byte)
    ensures Weight(Find(t, v)) <= Weight(t)
  {
    if t.Node? {
      FindWeight(t.left, v);
      FindWeight(t.right, v);
    }
  }

  lemma {:induction false} WeightBelowEnds(t: Tree, lo: int, hi: int, v: int)
    requires Indexed(t, lo, hi)
    ensures v <= lo ==> WeightBelow(t, v) == 0
    ensures hi <= v ==> WeightBelow(t, v) == Weight(t)
  {
    if t.Node? {
      WeightBelowEnds(t.left, lo, t.value, v);
      WeightBelowEnds(t.right, t.value + 1, hi, v);
    }
  }

  lemma {:induction false} WeightBelowLimit(t: Tree, v: int)
    ensures WeightBelow(t, v) <= Weight(t)
  {
    if t.Node? {
      WeightBelowLimit(t.left, v);
      WeightBelowLimit(t.right, v);
    }
  }

  lemma {:induction false} WeightBelowStep(t: Tree, lo: int, hi: int, v: Byte)
    requires Indexed(t, lo, hi)
    ensures WeightBelow(t, v + 1) == WeightBelow(t, v) + CountOf(t, v)
  {
    if t.Node? {
      if v < t.value {
        WeightBelowStep(t.left, lo, t.value, v);
      } else if v > t.value {
        WeightBelowStep(t.right, t.value + 1, hi, v);
      } else {
        WeightBelowEnds(t.left, lo, t.value, v);
        WeightBelowEnds(t.right, t.value + 1, hi, v + 1);
      }
    }
  }

  // What is below a value, and at it, by the node at the root.
  lemma CountsBelow(t: Tree, v: Byte, lo: int, hi: int)
    requires t.Node? && Indexed(t, lo, hi)
    ensures t.count <= t.under
    ensures v < t.value ==> WeightBelow(t, v) + CountOf(t, v) <= t.under - t.count
    ensures v < t.value && t.left.Leaf? ==> CountOf(t, v) == 0 && t.under == t.count
    ensures v == t.value ==> WeightBelow(t, v) == t.under - t.count && CountOf(t, v) == t.count
    ensures v > t.value ==> WeightBelow(t, v) >= t.under
    ensures v > t.value && t.right.Leaf? ==> WeightBelow(t, v) == t.under && CountOf(t, v) == 0
  {
    if v < t.value {
      WeightBelowStep(t.left, lo, t.value, v);
      WeightBelowLimit(t.left, v + 1);
      assert Find(t, v) == Find(t.left, v);
    } else if v == t.value {
      WeightBelowEnds(t.left, lo, t.value, v);
    } else {
      assert Find(t, v) == Find(t.right, v);
    }
  }

  // The walk computes the cumulative frequency.
  lemma {:induction false} WeightIsBelow(t: Tree, counts: Counts, v: nat)
    requires Holds(t, counts) && v <= 0x100
    ensures WeightBelow(t, v) == Below(counts, v)
    ensures v == 0x100 ==> Weight(t) == Below(counts, v)
    decreases v
  {
    WeightBelowEnds(t, 0, 0x100, v);
    if v > 0 {
      WeightIsBelow(t, counts, v - 1);
      WeightBelowStep(t, 0, 0x100, v - 1);
    }
  }

  // ---- insertion ----

  lemma {:induction false} InsertIndexed(t: Tree, v: Byte, update: nat, lo: int, hi: int)
    requires Indexed(t, lo, hi) && lo <= v < hi && 0 < update
    ensures Indexed(Insert(t, v, update), lo, hi)
    ensures Weight(Insert(t, v, update)) == Weight(t) + update
    ensures Values(Insert(t, v, update)) == Values(t) + {v}
  {
    if t.Node? {
      if v < t.value {
        InsertIndexed(t.left, v, update, lo, t.value);
      } else if v > t.value {
        InsertIndexed(t.right, v, update, t.value + 1, hi);
      }
    }
  }

  lemma {:induction false} InsertFind(t: Tree, v: Byte, update: nat, w: Byte)
    ensures CountOf(Insert(t, v, update), w) == if w == v then CountOf(t, v) + update else CountOf(t, w)
  {
    if t.Node? {
      InsertFind(t.left, v, update, w);
      InsertFind(t.right, v, update, w);
    }
  }

  lemma {:induction false} InsertNew(t: Tree, v: Byte, update: nat, lo: int, hi: int)
    requires Indexed(t, lo, hi) && v !in Values(t)
    ensures Find(Insert(t, v, update), v) == Node(v, update, update, Leaf, Leaf)
  {
    if t.Node? {
      InsertNew(t.left, v, update, lo, t.value);
      InsertNew(t.right, v, update, t.value + 1, hi);
    }
  }

  lemma InsertHolds(t: Tree, counts: Counts, v: Byte, update: nat)
    requires Holds(t, counts) && 0 < update
    ensures Holds(Insert(t, v, update), counts[v := counts[v] + update])
  {
    InsertIndexed(t, v, update, 0, 0x100);
    forall w: Byte
      ensures CountOf(Insert(t, v, update), w) == counts[v := counts[v] + update][w]
    {
      InsertFind(t, v, update, w);
    }
  }

  // ---- rescaling ----

  lemma {:induction false} HalveIndexed(t: Tree, lo: int, hi: int)
    requires Indexed(t, lo, hi)
    ensures Indexed(Halve(t), lo, hi) && Values(Halve(t)) == Values(t)
  {
    if t.Node? {
      HalveIndexed(t.left, lo, t.value);
      HalveIndexed(t.right, t.value + 1, hi);
    }
  }

  lemma {:induction false} HalveFind(t: Tree, w: Byte)
    ensures Find(Halve(t), w) == Halve(Find(t, w))
  {
    if t.Node? && t.value != w {
      HalveFind(t.left, w);
      HalveFind(t.right, w);
    }
  }

  lemma {:induction false} HalveWeight(t: Tree)
    ensures Weight(Halve(t)) <= Weight(t)
  {
    if t.Node? {
      HalveWeight(t.left);
      HalveWeight(t.right);
    }
  }

  lemma HalveHolds(t: Tree, counts: Counts)
    requires Holds(t, counts)
    ensures Holds(Halve(t), Halved(counts))
  {
    HalveIndexed(t, 0, 0x100);
    forall w: Byte
      ensures CountOf(Halve(t), w) == Halved(counts)[w]
    {
      HalveFind(t, w);
      assert CountOf(t, w) == counts[w];
    }
  }
}
