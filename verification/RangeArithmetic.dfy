// The carry-less 32-bit range coder under ENet's packet compressor.
//
// An interval [low, low + range) of 32-bit words is narrowed by each coded event and
// shifted left a byte at a time once its leading byte is settled. Words are modelled as
// integers, and every place where the 32-bit C code wraps around or masks is written out.

module RangeArithmetic {
  import opened Words

  const TOP: int := 0x100_0000
  const BOTTOM: int := 0x1_0000

  // The slice [under, under + count) of `total` equally likely units.
  datatype Event = Event(under: int, count: int, total: int) {
    predicate Valid() {
      0 <= under && 0 < count && under + count <= total <= BOTTOM
    }
  }

  ghost predicate AllValid(events: seq<Event>) {
    forall e <- events :: e.Valid()
  }

  lemma AllValidAppend(a: seq<Event>, b: seq<Event>)
    ensures AllValid(a + b) <==> AllValid(a) && AllValid(b)
  {
    if AllValid(a + b) {
      assert forall e <- a :: e in a + b;
      assert forall e <- b :: e in a + b;
    }
  }

  datatype Interval = Interval(low: int, range: int) {
    // The interval never passes the end of the word. It may touch the end, after an
    // underflow was cut at a 2^16 boundary, but then it lies in the last 2^24 words.
    predicate Valid() {
      && 0 <= low < WORD && 0 < range && low + range <= WORD
      && (low + range == WORD ==> WORD - TOP <= low)
    }

    predicate Ready() {
      Valid() && BOTTOM <= range
    }

    predicate Contains(code: int) {
      low <= code < low + range
    }

    // (low ^ (low + range)) >= TOP: the two ends differ in their leading byte.
    predicate Straddles() {
      low / TOP != (low + range) % WORD / TOP
    }

    // The loop of the C code emits a byte for as long as this holds.
    predicate Settled() {
      Straddles() ==> range < BOTTOM
    }

    function Narrow(e: Event): Interval
      requires e.Valid()
    {
      var unit := range / e.total;
      Interval(low + e.under * unit, unit * e.count)
    }

    // The interval whose leading byte is about to be shifted out: cut at the next
    // multiple of BOTTOM (`-low & (BOTTOM - 1)` words away) if its ends still differ.
    function Cut(): Interval {
      if Straddles() then Interval(low, (WORD - low) % BOTTOM) else this
    }

    function Shift(): Interval {
      Interval(low * 0x100 % WORD, Cut().range * 0x100)
    }
  }

  const FullInterval := Interval(0, WORD - 1)

  // Narrowing stays inside the interval.
  lemma NarrowInside(iv: Interval, e: Event)
    requires iv.Ready() && e.Valid()
    ensures 0 < iv.range / e.total
    ensures iv.Narrow(e).Valid()
    ensures iv.low <= iv.Narrow(e).low
    ensures iv.Narrow(e).low + iv.Narrow(e).range <= iv.low + iv.range
  {
    var unit := iv.range / e.total;
    DivBracket(iv.range, e.total, 1);
    DivBracket(iv.range, e.total, unit);
    assert (e.under + e.count) * unit == e.under * unit + e.count * unit;
    MulMonotone(e.under + e.count, e.total, unit);
    MulMonotone(0, e.under, unit);
    MulMonotone(1, e.count, unit);
    assert e.total * unit == unit * e.total <= iv.range;
  }

  // A word lies in the narrowed interval exactly when the decoder's quotient for it falls
  // in the event's slice.
  lemma NarrowDecodes(iv: Interval, e: Event, code: int)
    requires iv.Ready() && e.Valid()
    requires iv.Contains(code)
    ensures 0 < iv.range / e.total
    ensures iv.Narrow(e).Contains(code) <==> e.under <= (code - iv.low) / (iv.range / e.total) < e.under + e.count
  {
    var unit := iv.range / e.total;
    NarrowInside(iv, e);
    DivBracket(code - iv.low, unit, e.under);
    DivBracket(code - iv.low, unit, e.under + e.count);
    assert (e.under + e.count) * unit == e.under * unit + e.count * unit;
  }

  // The cut interval is a non-empty part of the interval whose words share one leading byte.
  lemma CutSettles(iv: Interval)
    requires iv.Valid() && iv.Settled()
    ensures 0 < iv.Cut().range <= iv.range
    ensures iv.low % TOP + iv.Cut().range <= TOP
    ensures iv.low + iv.range == WORD ==> iv.Straddles() && iv.Cut() == iv
    ensures iv.Straddles() ==> iv.low % TOP + iv.Cut().range == TOP
  {
    var q, r := iv.low / TOP, iv.low % TOP;
    assert iv.low == q * TOP + r;
    if iv.low + iv.range == WORD {
      DivMod(iv.low + iv.range, WORD, 1, 0);
      DivMod(0, TOP, 0, 0);
      DivMod(iv.low, TOP, 0xFF, iv.low - 0xFF * TOP);
      DivMod(WORD - iv.low, BOTTOM, 0, WORD - iv.low);
    } else {
      DivMod(iv.low + iv.range, WORD, 0, iv.low + iv.range);
      if r + iv.range < TOP {
        DivMod(iv.low + iv.range, TOP, q, r + iv.range);
      } else {
        DivBracket(iv.low + iv.range, TOP, q + 1);
        assert iv.Straddles() && iv.range < BOTTOM;
        DivMod(WORD - iv.low, BOTTOM, (0xFF - q) * 0x100, TOP - r);
      }
    }
  }

  // One shift keeps the interval valid and makes progress: the range grows, except in the
  // one step that cuts an underflow.
  lemma ShiftSound(iv: Interval)
    requires iv.Valid() && iv.Settled()
    ensures iv.Shift().Valid()
    ensures iv.low + iv.range == WORD ==> iv.Shift().low + iv.Shift().range == WORD
    ensures iv.Shift().low + iv.Shift().range == WORD || iv.low + iv.range < WORD
    ensures iv.Shift().range > iv.range || (iv.low + iv.range < WORD == iv.Shift().low + iv.Shift().range)
    ensures iv.Shift().low == iv.low % TOP * 0x100
  {
    CutSettles(iv);
  }

  // ---- whole runs ----

  // The bytes one event shifts out, and the interval left when the coder is ready again.
  datatype Settling = Settling(bytes: seq<Byte>, interval: Interval)

  ghost function Settle(iv: Interval): (r: Settling)
    requires iv.Valid()
    ensures r.interval.Ready()
    decreases if iv.low + iv.range == WORD then 0 else 1, WORD - iv.range
  {
    if !iv.Settled() then Settling([], iv)
    else
      ShiftSound(iv);
      var rest := Settle(iv.Shift());
      Settling([iv.low / TOP] + rest.bytes, rest.interval)
  }

  // Coding one event.
  ghost function Coded(iv: Interval, e: Event): (r: Settling)
    requires iv.Ready() && e.Valid()
    ensures r.interval.Ready()
  {
    NarrowInside(iv, e);
    Settle(iv.Narrow(e))
  }

  // The statements of the C code that narrow the interval, on its own variables.
  lemma NarrowStep(low: int, range: int, under: int, count: int, total: int)
    requires Interval(low, range).Ready() && Event(under, count, total).Valid()
    ensures 0 < total
    ensures var unit := range / total; var iv := Interval(low + under * unit, unit * count);
      && iv == Interval(low, range).Narrow(Event(under, count, total)) && iv.Valid()
      && 0 <= iv.low < WORD && 0 < iv.range < WORD
      && Coded(Interval(low, range), Event(under, count, total)) == Settle(iv)
  {
    NarrowInside(Interval(low, range), Event(under, count, total));
  }

  // The test of the loop that shifts bytes out.
  predicate MustShift(low: U32, range: U32) {
    low / TOP == (low + range) % WORD / TOP || range < BOTTOM
  }

  // The underflow cut of that loop: `-low & (BOTTOM - 1)`, taken if the leading bytes differ.
  function CutRange(low: U32, range: U32): U32 {
    if low / TOP != (low + range) % WORD / TOP then (WORD - low) % BOTTOM else range
  }

  function LeadingByte(word: U32): Byte {
    word / TOP
  }

  function ShiftWord(word: U32): U32 {
    word * 0x100 % WORD
  }

  // A bound on the shifts still to come.
  ghost function ShiftsLeft(low: int, range: int): int {
    (if low + range == WORD then 0 else WORD) + WORD - range
  }

  // One round of the loop that shifts bytes out, and when the loop stops.
  lemma SettleStep(low: U32, range: U32)
    requires Interval(low, range).Valid()
    ensures MustShift(low, range) ==>
              var iv := Interval(low, range);
              var next := Interval(ShiftWord(low), CutRange(low, range) * 0x100);
      && next.Valid() && 0 < next.range <= 0xFFFF_FFFF
      && Settle(iv).bytes == [LeadingByte(low)] + Settle(next).bytes && Settle(iv).interval == Settle(next).interval
      && 0 <= ShiftsLeft(next.low, next.range) < ShiftsLeft(low, range)
    ensures !MustShift(low, range) ==>
              Interval(low, range).Ready() && Settle(Interval(low, range)) == Settling([], Interval(low, range))
  {
    if Interval(low, range).Settled() {
      ShiftSound(Interval(low, range));
      CutSettles(Interval(low, range));
    }
  }

  // The closing flush: the words of `low` without its trailing zero bytes.
  ghost function Flush(low: int): (bytes: seq<Byte>)
    requires 0 <= low < WORD
    decreases TrailingBytes(low)
  {
    if low == 0 then [] else FlushShrinks(low); [low / TOP] + Flush(low % TOP * 0x100)
  }

  // How many of the four bytes of a word precede its trailing zero bytes.
  ghost function TrailingBytes(low: int): nat {
    if low == 0 then 0 else if low % TOP == 0 then 1 else if low % BOTTOM == 0 then 2 else if low % 0x100 == 0 then 3 else 4
  }

  lemma FlushShrinks(low: int)
    requires 0 < low < WORD
    ensures TrailingBytes(low % TOP * 0x100) < TrailingBytes(low)
  {
    var r := low % TOP;
    var q := low / TOP;
    assert low == q * TOP + r;
    DivMod(r * 0x100, 0x100, r, 0);
    if low % BOTTOM == 0 {
      var h := low / BOTTOM;
      DivMod(r * 0x100, TOP, h - 0x100 * q, 0);
    } else if low % 0x100 == 0 {
      var h := low / 0x100;
      DivMod(r * 0x100, BOTTOM, h - 0x1_0000 * q, 0);
    }
  }

  // One round of the flushing loop.
  lemma FlushStep(low: U32)
    ensures low == 0 ==> Flush(low) == []
    ensures low != 0 ==> Flush(low) == [LeadingByte(low)] + Flush(ShiftWord(low)) && TrailingBytes(ShiftWord(low)) < TrailingBytes(low)
  {
    if low != 0 {
      FlushShrinks(low);
      DivMod(low * 0x100, WORD, low / TOP, low % TOP * 0x100);
    }
  }

  // Everything the encoder emits for `events` from interval `iv` on, flush included.
  ghost function Emitted(iv: Interval, events: seq<Event>): (bytes: seq<Byte>)
    requires iv.Ready() && AllValid(events)
    decreases |events|
  {
    if events == [] then Flush(iv.low)
    else
      Coded(iv, events[0]).bytes + Emitted(Coded(iv, events[0]).interval, events[1..])
  }

  // Coding several events in a row, without the flush.
  ghost function CodedAll(iv: Interval, events: seq<Event>): (r: Settling)
    requires iv.Ready() && AllValid(events)
    ensures r.interval.Ready()
    decreases |events|
  {
    if events == [] then Settling([], iv)
    else
      var rest := CodedAll(Coded(iv, events[0]).interval, events[1..]);
      Settling(Coded(iv, events[0]).bytes + rest.bytes, rest.interval)
  }

  lemma {:induction false} CodedAppend(iv: Interval, a: seq<Event>, b: seq<Event>)
    requires iv.Ready() && AllValid(a + b) && AllValid(a) && AllValid(b)
    ensures CodedAll(iv, a + b).bytes == CodedAll(iv, a).bytes + CodedAll(CodedAll(iv, a).interval, b).bytes
    ensures CodedAll(iv, a + b).interval == CodedAll(CodedAll(iv, a).interval, b).interval
    decreases |a|
  {
    if a == [] {
      assert a + b == b;
    } else {
      assert (a + b)[0] == a[0] && (a + b)[1..] == a[1..] + b;
      CodedAppend(Coded(iv, a[0]).interval, a[1..], b);
    }
  }

  lemma {:induction false} EmittedAppend(iv: Interval, a: seq<Event>, b: seq<Event>)
    requires iv.Ready() && AllValid(a + b) && AllValid(a) && AllValid(b)
    ensures Emitted(iv, a + b) == CodedAll(iv, a).bytes + Emitted(CodedAll(iv, a).interval, b)
    decreases |a|
  {
    if a == [] {
      assert a + b == b;
    } else {
      assert (a + b)[0] == a[0] && (a + b)[1..] == a[1..] + b;
      EmittedAppend(Coded(iv, a[0]).interval, a[1..], b);
    }
  }

  lemma CodedOne(iv: Interval, e: Event)
    requires iv.Ready() && e.Valid()
    ensures CodedAll(iv, [e]) == Coded(iv, e)
  {
    assert CodedAll(Coded(iv, e).interval, [e][1..]) == Settling([], Coded(iv, e).interval);
  }

  // The decoder's 32-bit window on the bytes ahead of it, zero-extended past the end.
  function Window(bytes: seq<Byte>): (w: int)
    ensures 0 <= w < WORD
  {
    ByteAt(bytes, 0) * TOP + ByteAt(bytes, 1) * BOTTOM + ByteAt(bytes, 2) * 0x100 + ByteAt(bytes, 3)
  }

  function ByteAt(bytes: seq<Byte>, i: nat): Byte {
    if i < |bytes| then bytes[i] else 0
  }

  // Shifting one byte out of the window brings the fifth byte in.
  lemma WindowShift(bytes: seq<Byte>)
    ensures Window(Drop(bytes, 1)) == Window(bytes) * 0x100 % WORD + ByteAt(bytes, 4)
    ensures Window(bytes) / TOP == ByteAt(bytes, 0)
    ensures Window(bytes) % TOP == Window(Drop(bytes, 1)) / 0x100
  {
    forall i: nat | i <= 4
      ensures ByteAt(Drop(bytes, 1), i) == ByteAt(bytes, i + 1)
    {
    }
  }

  lemma FlushWindow(low: int)
    requires 0 <= low < WORD
    ensures Window(Flush(low)) == low
    decreases TrailingBytes(low)
  {
    if low != 0 {
      FlushShrinks(low);
      FlushWindow(low % TOP * 0x100);
      assert Drop(Flush(low), 1) == Flush(low % TOP * 0x100);
      WindowShift(Flush(low));
    }
  }

  // Prepending the bytes that settling emits carries the window of what follows back into
  // the interval.
  lemma {:induction false} SettleWindow(iv: Interval, rest: seq<Byte>)
    requires iv.Valid()
    requires Settle(iv).interval.Contains(Window(rest))
    ensures iv.Contains(Window(Settle(iv).bytes + rest))
    decreases if iv.low + iv.range == WORD then 0 else 1, WORD - iv.range
  {
    if iv.Settled() {
      ShiftSound(iv);
      CutSettles(iv);
      var s := Settle(iv.Shift());
      SettleWindow(iv.Shift(), rest);
      var all := Settle(iv).bytes + rest;
      assert all == [iv.low / TOP] + (s.bytes + rest);
      assert Drop(all, 1) == s.bytes + rest;
      WindowShift(all);
    } else {
      assert Settle(iv).bytes + rest == rest;
    }
  }

  // The decoder's window on a whole run of the encoder lies in the encoder's interval.
  lemma {:induction false} EmittedWindow(iv: Interval, events: seq<Event>)
    requires iv.Ready() && AllValid(events)
    ensures iv.Contains(Window(Emitted(iv, events)))
    decreases |events|
  {
    if events == [] {
      FlushWindow(iv.low);
    } else {
      var e := events[0];
      NarrowInside(iv, e);
      var s := Coded(iv, e);
      EmittedWindow(s.interval, events[1..]);
      SettleWindow(iv.Narrow(e), Emitted(s.interval, events[1..]));
    }
  }

  // ---- what the decoder sees ----

  // The decoder's quotient: the unit of `total` in which a code word lies.
  function UnitOf(iv: Interval, code: int, total: int): int {
    if 0 < total && 0 < iv.range / total then (code - iv.low) % WORD / (iv.range / total) else 0
  }

  // In front of an event the decoder's quotient falls in the event's slice, and the bytes that
  // follow those of the event are what the encoder emits from there.
  lemma ReadsEvent(iv: Interval, e: Event, more: seq<Event>)
    requires iv.Ready() && e.Valid() && AllValid(more)
    ensures AllValid([e] + more)
    ensures e.under <= UnitOf(iv, Window(Emitted(iv, [e] + more)), e.total) < e.under + e.count
    ensures Drop(Emitted(iv, [e] + more), |Coded(iv, e).bytes|) == Emitted(Coded(iv, e).interval, more)
  {
    hide Settle, Emitted, Interval.Narrow, Interval.Valid, AllValid;
    EmittedFirst(iv, e, more);
    var rest := Emitted(Coded(iv, e).interval, more);
    var code := Window(Emitted(iv, [e] + more));
    EmittedWindow(Coded(iv, e).interval, more);
    NarrowInside(iv, e);
    SettleWindow(iv.Narrow(e), rest);
    EmittedWindow(iv, [e] + more);
    NarrowDecodes(iv, e, code);
    Offset(iv, code);
  }

  lemma EmittedFirst(iv: Interval, e: Event, more: seq<Event>)
    requires iv.Ready() && e.Valid() && AllValid(more)
    ensures AllValid([e] + more) && Emitted(iv, [e] + more) == Coded(iv, e).bytes + Emitted(Coded(iv, e).interval, more)
  {
    AllValidAppend([e], more);
    assert ([e] + more)[0] == e && ([e] + more)[1..] == more;
  }

  lemma Offset(iv: Interval, code: int)
    requires iv.Valid() && iv.Contains(code)
    ensures (code - iv.low) % WORD == code - iv.low
  {
    DivMod(code - iv.low, WORD, 0, code - iv.low);
  }

  // Past the last event the code word is the bottom of the interval.
  lemma ReadsEnd(iv: Interval, total: int)
    requires iv.Ready() && 0 < total <= BOTTOM
    ensures UnitOf(iv, Window(Flush(iv.low)), total) == 0
  {
    FlushWindow(iv.low);
    DivBracket(iv.range, total, 1);
    DivMod(0, iv.range / total, 0, 0);
  }

  // Decoding an escape there keeps it so.
  lemma {:induction false} FlushSettles(iv: Interval)
    requires iv.Valid()
    ensures Drop(Flush(iv.low), |Settle(iv).bytes|) == Flush(Settle(iv).interval.low)
    decreases if iv.low + iv.range == WORD then 0 else 1, WORD - iv.range
  {
    hide Flush, Interval.Cut, Interval.Straddles;
    if iv.Settled() {
      ShiftSound(iv);
      FlushSettles(iv.Shift());
      DropOne(iv);
    }
  }

  lemma DropOne(iv: Interval)
    requires iv.Valid() && iv.Settled()
    ensures Drop(Flush(iv.low), 1) == Flush(iv.Shift().low)
  {
    FlushStep(iv.low);
  }

  lemma EscapesAtEnd(iv: Interval, e: Event)
    requires iv.Ready() && e.Valid() && e.under == 0
    ensures Drop(Flush(iv.low), |Coded(iv, e).bytes|) == Flush(Coded(iv, e).interval.low)
  {
    NarrowInside(iv, e);
    FlushSettles(iv.Narrow(e));
  }

  // A run that ever leaves the bottom of the number range emits something.
  lemma {:induction false} EmittedNonEmpty(iv: Interval, events: seq<Event>)
    requires iv.Ready() && AllValid(events)
    requires iv.low > 0 || (events != [] && events[0].under > 0)
    ensures Emitted(iv, events) != []
    decreases |events|
  {
    if events != [] {
      var e := events[0];
      NarrowInside(iv, e);
      MulMonotone(if e.under > 0 then 1 else 0, e.under, iv.range / e.total);
      if Coded(iv, e).bytes == [] {
        EmittedNonEmpty(Coded(iv, e).interval, events[1..]);
      }
    }
  }
}
