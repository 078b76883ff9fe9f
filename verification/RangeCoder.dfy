// The two ends of the range coder as the compressor runs them: an encoder that writes to a
// bounded buffer, and a decoder that reads past the end of its input as if it went on with
// zero bytes.

module RangeCoder {
  import opened Words
  import opened RangeArithmetic

  class RangeEncoder {
    var low: U32
    var range: U32
    const out: array<Byte>
    var length: nat

    ghost predicate Valid()
      reads this
    {
      State().Ready() && length <= out.Length
    }

    ghost function State(): Interval
      reads this
    {
      Interval(low, range)
    }

    ghost function Bytes(): seq<Byte>
      reads this, out
    {
      if length <= out.Length then out[..length] else []
    }

    constructor (out: array<Byte>)
      ensures Valid() && this.out == out && Bytes() == [] && State() == FullInterval
    {
      low, range, length, this.out := 0, WORD - 1, 0, out;
    }

    method Output(value: Byte) returns (ok: bool)
      requires length <= out.Length
      modifies this`length, out
      ensures ok == (old(length) < out.Length)
      ensures ok ==> length == old(length) + 1 && Bytes() == old(Bytes()) + [value]
      ensures !ok ==> length == old(length)
    {
      ok := length < out.Length;
      if ok {
        out[length] := value;
        length := length + 1;
      }
    }

    // Codes one event; fails exactly when its bytes do not fit.
    method Encode(under: nat, count: nat, total: nat) returns (ok: bool)
      requires Valid() && Event(under, count, total).Valid()
      modifies this`low, this`range, this`length, out
      ensures var s := Coded(old(State()), Event(under, count, total));
        && (ok <==> old(length) + |s.bytes| <= out.Length)
        && (ok ==> Valid() && State() == s.interval && Bytes() == old(Bytes()) + s.bytes)
    {
      hide Interval.Narrow, Interval.Valid, Coded, RangeArithmetic.Settle, Event.Valid;
      NarrowStep(low, range, under, count, total);
      range := range / total;
      low := low + under * range;
      range := range * count;
      ok := Settle();
    }

    // The loop that ends every coding step.
    method Settle() returns (ok: bool)
      requires State().Valid() && length <= out.Length
      modifies this`low, this`range, this`length, out
      ensures var s := RangeArithmetic.Settle(old(State()));
        && (ok <==> old(length) + |s.bytes| <= out.Length)
        && (ok ==> Valid() && State() == s.interval && Bytes() == old(Bytes()) + s.bytes)
    {
      hide Interval.Valid, RangeArithmetic.Settle, MustShift, CutRange, ShiftWord, ShiftsLeft;
      ghost var s := RangeArithmetic.Settle(State());
      SettleStep(low, range);
      while MustShift(low, range)
        invariant Interval(low, range).Valid() && length <= out.Length
        invariant RangeArithmetic.Settle(Interval(low, range)).interval == s.interval
        invariant |Bytes()| == length && Bytes() + RangeArithmetic.Settle(Interval(low, range)).bytes == old(Bytes()) + s.bytes
        decreases ShiftsLeft(low, range)
      {
        SettleStep(low, range);
        ghost var bytes, rest := Bytes(), RangeArithmetic.Settle(Interval(low, range)).bytes;
        range := CutRange(low, range);
        ok := Output(LeadingByte(low));
        if !ok {
          return;
        }
        range := range * 0x100;
        low := ShiftWord(low);
        assert bytes + rest == Bytes() + RangeArithmetic.Settle(Interval(low, range)).bytes;
      }
      SettleStep(low, range);
      ok := true;
    }

    // Writes what is left of `low`.
    method Flush() returns (ok: bool)
      requires Valid()
      modifies this`low, this`length, out
      ensures ok <==> old(length) + |RangeArithmetic.Flush(old(low))| <= out.Length
      ensures ok ==> length <= out.Length && Bytes() == old(Bytes()) + RangeArithmetic.Flush(old(low))
    {
      hide RangeArithmetic.Flush, ShiftWord, LeadingByte, TrailingBytes;
      FlushStep(low);
      while low != 0
        invariant length <= out.Length
        invariant |Bytes()| == length && Bytes() + RangeArithmetic.Flush(low) == old(Bytes()) + RangeArithmetic.Flush(old(low))
        decreases TrailingBytes(low)
      {
        FlushStep(low);
        ghost var bytes, rest := Bytes(), RangeArithmetic.Flush(low);
        ok := Output(LeadingByte(low));
        if !ok {
          return;
        }
        low := ShiftWord(low);
        assert bytes + rest == Bytes() + RangeArithmetic.Flush(low);
      }
      FlushStep(low);
      ok := true;
    }
  }

  class RangeDecoder {
    var low: U32
    var range: U32
    var code: U32
    const data: seq<Byte>
    var next: nat
    // What the encoder's stream still holds from the code word on.
    ghost var ahead: seq<Byte>

    ghost predicate Synchronised()
      reads this`code, this`next, this`ahead
    {
      code == Window(ahead) && next <= |data| && data[next..] == Drop(ahead, 4)
    }

    ghost predicate Valid()
      reads this
    {
      State().Ready() && Synchronised()
    }

    ghost function State(): Interval
      reads this
    {
      Interval(low, range)
    }

    constructor (data: seq<Byte>)
      ensures Valid() && this.data == data && ahead == data && State() == FullInterval
    {
      low, range := 0, WORD - 1;
      this.data, ahead := data, data;
      code := Window(data);
      next := Min(|data|, 4);
    }

    // The unit the code word falls in when the range is cut into `total` of them; from here
    // until the next Decode the range stands for one unit.
    method Read(total: nat) returns (unit: nat)
      requires Valid() && 0 < total <= BOTTOM
      modifies this`range
      ensures range == old(range) / total && unit == UnitOf(old(State()), code, total)
    {
      DivBracket(range, total, 1);
      range := range / total;
      var offset := (code - low) % WORD;
      DivBracket(offset, range, 0);
      unit := offset / range;
    }

    // The next byte, or zero past the end of the data, enters the code word.
    method ShiftIn()
      requires Synchronised()
      modifies this`code, this`next, this`ahead
      ensures Synchronised() && ahead == Drop(old(ahead), 1)
    {
      WindowShift(ahead);
      code := code * 0x100 % WORD;
      if next < |data| {
        code := code + data[next];
        next := next + 1;
      }
      ahead := Drop(ahead, 1);
    }

    // Follows the encoder through the event (under, count, total) that it coded in interval
    // `iv`, reading as many bytes as the encoder wrote.
    method Decode(under: nat, count: nat, ghost total: nat, ghost iv: Interval)
      requires iv.Ready() && Event(under, count, total).Valid() && Synchronised()
      requires low == iv.low && total > 0 && range == iv.range / total
      modifies this`low, this`range, this`code, this`next, this`ahead
      ensures Valid() && State() == Coded(iv, Event(under, count, total)).interval
      ensures ahead == Drop(old(ahead), |Coded(iv, Event(under, count, total)).bytes|)
    {
      hide Interval.Narrow, Interval.Valid, Coded, Settle, Event.Valid, RangeDecoder.Synchronised;
      NarrowStep(iv.low, iv.range, under, count, total);
      assert iv == Interval(iv.low, iv.range);
      low := low + under * range;
      range := range * count;
      Follow();
    }

    // The loop that ends every decoding step.
    method Follow()
      requires State().Valid() && Synchronised()
      modifies this`low, this`range, this`code, this`next, this`ahead
      ensures Valid() && State() == Settle(old(State())).interval
      ensures ahead == Drop(old(ahead), |Settle(old(State())).bytes|)
    {
      hide Interval.Valid, Settle, MustShift, CutRange, ShiftWord, ShiftsLeft, RangeDecoder.Synchronised;
      ghost var s, read := Settle(Interval(low, range)), 0;
      SettleStep(low, range);
      while MustShift(low, range)
        invariant Interval(low, range).Valid() && Synchronised()
        invariant Settle(Interval(low, range)).interval == s.interval
        invariant read + |Settle(Interval(low, range)).bytes| == |s.bytes| && ahead == Drop(old(ahead), read)
        decreases ShiftsLeft(low, range)
      {
        SettleStep(low, range);
        range := CutRange(low, range);
        ShiftIn();
        range := range * 0x100;
        low := ShiftWord(low);
        read := read + 1;
      }
      SettleStep(low, range);
    }
  }
}
