// The adaptive order-2 model of ENet's packet compressor, as frequency tables.
//
// A context is named by the (at most two) bytes seen before the byte being coded; a symbol
// pool is a map from such names to frequency tables. The names of the symbols a context
// holds are its own name extended by one byte, so names of three bytes occur as symbols
// that are never used as contexts. This is the meaning that the symbol pool of
// ContextPool.dfy, with its binary indexed trees and 16-bit links, is proved against.

module FrequencyModel {
  import opened Words
  import opened RangeArithmetic

  const SYMBOL_DELTA := 3
  const SYMBOL_MINIMUM := 1
  const ESCAPE_MINIMUM := 1
  const SUBCONTEXT_ORDER := 2
  const SUBCONTEXT_SYMBOL_DELTA := 2
  const SUBCONTEXT_ESCAPE_DELTA := 5
  const POOL_SIZE: nat := 4096

  type Name = seq<Byte>
  type Counts = s: seq<nat> | |s| == 0x100 witness seq(0x100, _ => 0)

  // ---- one context ----

  // The number of units of the symbols smaller than `v`.
  function Below(counts: Counts, v: nat): nat
    requires v <= 0x100
  {
    if v == 0 then 0 else Below(counts, v - 1) + counts[v - 1]
  }

  // The adaptation constants differ between the root and every other context: the root
  // grants each of the 256 symbols a minimum of one unit, so it never escapes.
  datatype Tuning = Tuning(delta: nat, escapeDelta: nat, minimum: nat)

  const ROOT_TUNING := Tuning(SYMBOL_DELTA, 0, SYMBOL_MINIMUM)
  const SUB_TUNING := Tuning(SUBCONTEXT_SYMBOL_DELTA, SUBCONTEXT_ESCAPE_DELTA, 0)

  function TuningOf(name: Name): Tuning {
    if name == [] then ROOT_TUNING else SUB_TUNING
  }

  function NoCounts(): Counts {
    seq(0x100, _ => 0)
  }

  datatype Context = Context(counts: Counts, escapes: nat) {
    function Total(t: Tuning): nat {
      escapes + Below(counts, 0x100) + 0x100 * t.minimum
    }

    // The slice of symbol `v`.
    function Slice(t: Tuning, v: Byte): Event {
      Event(escapes + v * t.minimum + Below(counts, v), counts[v] + t.minimum, Total(t))
    }

    function EscapeSlice(t: Tuning): Event {
      Event(0, escapes, Total(t))
    }

    // Counters roughly halve, but never to zero.
    function Rescale(): Context {
      Context(Halved(counts), escapes - escapes / 2)
    }

    // The context after `v` was coded in it: a symbol met for the first time also makes an
    // escape more likely, and large counters are rescaled.
    function Learn(t: Tuning, v: Byte): Context {
      if counts[v] + t.minimum > 0xFF - 2 * t.delta + t.minimum || More(t, v).Total(t) > BOTTOM - 0x100
      then More(t, v).Rescale()
      else More(t, v)
    }

    function More(t: Tuning, v: Byte): Context {
      Context(counts[v := counts[v] + t.delta], if counts[v] == 0 then escapes + t.escapeDelta else escapes)
    }

    // Counters fit their 8- and 16-bit fields with room for one more update, and the total
    // can divide any range of a coder that is ready.
    ghost predicate Bounded(t: Tuning) {
      && (forall v | 0 <= v < 0x100 :: counts[v] <= 0xFF - t.delta)
      && Total(t) <= BOTTOM - 0x100
      && (t == ROOT_TUNING ==> escapes == ESCAPE_MINIMUM)
      && (t != ROOT_TUNING ==> (escapes == 0 <==> Below(counts, 0x100) == 0))
    }
  }

  function Halved(counts: Counts): Counts {
    seq(0x100, v requires 0 <= v < 0x100 => counts[v] - counts[v] / 2)
  }

  function RootContext(): Context {
    Context(NoCounts(), ESCAPE_MINIMUM)
  }

  function FreshContext(): Context {
    Context(NoCounts(), 0)
  }

  lemma {:induction false} BelowMonotone(counts: Counts, v: nat, w: nat)
    requires v <= w <= 0x100
    ensures Below(counts, v) <= Below(counts, w)
    decreases w
  {
    if v < w {
      BelowMonotone(counts, v, w - 1);
    }
  }

  lemma {:induction false} BelowUpdate(counts: Counts, v: Byte, n: nat, w: nat)
    requires w <= 0x100
    ensures Below(counts[v := n], w) == if v < w then Below(counts, w) - counts[v] + n else Below(counts, w)
  {
    if w > 0 {
      BelowUpdate(counts, v, n, w - 1);
    }
  }

  lemma {:induction false} BelowHalved(counts: Counts, w: nat)
    requires w <= 0x100
    ensures Below(counts, w) <= 2 * Below(Halved(counts), w) <= Below(counts, w) + w
  {
    if w > 0 {
      BelowHalved(counts, w - 1);
    }
  }

  lemma {:induction false} BelowNone(w: nat)
    requires w <= 0x100
    ensures Below(NoCounts(), w) == 0
  {
    if w > 0 {
      BelowNone(w - 1);
    }
  }

  // A symbol's slice is a valid coder event above the escape slice, and no two slices of a
  // context meet.
  lemma SliceValid(c: Context, t: Tuning, v: Byte)
    requires c.Bounded(t) && t.minimum <= 1 && 0 < c.counts[v] + t.minimum
    ensures c.Slice(t, v).Valid() && c.escapes <= c.Slice(t, v).under
    ensures c.EscapeSlice(t).total == c.Slice(t, v).total && 0 < c.Total(t)
  {
    BelowMonotone(c.counts, v + 1, 0x100);
    assert Below(c.counts, v + 1) == Below(c.counts, v) + c.counts[v];
    assert v * t.minimum + t.minimum <= 0x100 * t.minimum;
  }

  lemma MorePositive(c: Context, t: Tuning, v: Byte)
    requires c.Bounded(t) && (t == ROOT_TUNING || t == SUB_TUNING)
    ensures c.counts[v] <= Below(c.counts, 0x100)
    ensures c.More(t, v).Total(t) == c.Total(t) + t.delta + (if c.counts[v] == 0 then t.escapeDelta else 0)
    ensures Below(c.More(t, v).counts, 0x100) == Below(c.counts, 0x100) + t.delta
  {
    BelowUpdate(c.counts, v, c.counts[v] + t.delta, 0x100);
    BelowMonotone(c.counts, v + 1, 0x100);
  }

  // No counter of a context ever outgrows its field: learning keeps the bounds.
  lemma LearnBounded(c: Context, t: Tuning, v: Byte)
    requires c.Bounded(t) && (t == ROOT_TUNING || t == SUB_TUNING)
    ensures c.Learn(t, v).Bounded(t)
    ensures forall w | 0 <= w < 0x100 :: c.Learn(t, v).counts[w] > 0 <==> c.counts[w] > 0 || w == v
  {
    MorePositive(c, t, v);
    var more := c.More(t, v);
    BelowHalved(more.counts, 0x100);
    assert forall w | 0 <= w < 0x100 :: more.counts[w] <= 0xFF;
  }
}
