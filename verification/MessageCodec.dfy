// Packing into a buffer that grows, and unpacking with a cursor.

module MessageCodec {
  import opened Words
  import opened MessagePack

  class Buffer {
    var b: array<Byte>
    var len: nat

    ghost predicate Valid()
      reads this
    {
      len <= b.Length
    }

    ghost function Contents(): seq<Byte>
      reads this, b
      requires Valid()
    {
      b[..len]
    }

    constructor ()
      ensures Valid() && Contents() == [] && fresh(b)
    {
      b := new Byte[0];
      len := 0;
    }

    // Appends, in a block of twice the room if there is too little.
    method Append(s: seq<Byte>)
      requires Valid()
      modifies this, b
      ensures Valid() && Contents() == old(Contents()) + s && (b == old(b) || fresh(b))
    {
      if b.Length - len < |s| {
        var larger := new Byte[(len + |s|) * 2];
        forall i | 0 <= i < len {
          larger[i] := b[i];
        }
        b := larger;
      }
      assert b[..len] == old(Contents());
      forall i | 0 <= i < |s| {
        b[len + i] := s[i];
      }
      len := len + |s|;
      assert b[..len] == old(Contents()) + s;
    }

    method EncodeInt(n: int)
      requires Valid() && Fits(Int(n))
      modifies this, b
      ensures Valid() && Contents() == old(Contents()) + IntBytes(n) && (b == old(b) || fresh(b))
    {
      hide Big;
      if n >= 0 {
        if n <= 0x7F {
          Append([n]);
        } else if n <= 0xFF {
          Append([0xCC] + Big(n, 1));
        } else if n <= 0xFFFF {
          Append([0xCD] + Big(n, 2));
        } else if n <= 0xFFFF_FFFF {
          Append([0xCE] + Big(n, 4));
        } else {
          Append([0xCF] + Big(n, 8));
        }
      } else if n >= -32 {
        Append([n + 0x100]);
      } else if n >= -0x80 {
        Append([0xD0] + Big(n + 0x100, 1));
      } else if n >= -0x8000 {
        Append([0xD1] + Big(n + 0x1_0000, 2));
      } else if n >= -0x8000_0000 {
        Append([0xD2] + Big(n + 0x1_0000_0000, 4));
      } else {
        Append([0xD3] + Big(n + 0x1_0000_0000_0000_0000, 8));
      }
    }

    // Writes a value, its tables item by item.
    method EncodeType(v: Value, level: nat)
      requires Valid() && Fits(v)
      modifies this, b
      ensures Valid() && Contents() == old(Contents()) + Encode(v, level) && (b == old(b) || fresh(b))
      decreases v, 0
    {
      hide EncodeAll, IntBytes, StrHead, TableHead, AllFit;
      match v
      case Nil => Append([0xC0]);
      case Bool(t) => Append([if t then 0xC3 else 0xC2]);
      case Int(n) => EncodeInt(n);
      case Float(bytes) => Append([if |bytes| == 4 then 0xCA else 0xCB] + bytes);
      case Str(bytes) =>
        Append(StrHead(|bytes|));
        Append(bytes);
        ConcatAssociative(old(Contents()), StrHead(|bytes|), bytes);
      case Array(items) =>
        if level == NESTING {
          Append([0xC0]);
        } else {
          Append(ArrayHead(|items|));
          EncodeItems(items, level + 1);
          ConcatAssociative(old(Contents()), ArrayHead(|items|), EncodeAll(items, level + 1));
        }
      case Map(items) =>
        if level == NESTING {
          Append([0xC0]);
        } else {
          Append(MapHead(|items| / 2));
          EncodeItems(items, level + 1);
          ConcatAssociative(old(Contents()), MapHead(|items| / 2), EncodeAll(items, level + 1));
        }
    }

    method EncodeItems(items: seq<Value>, level: nat)
      requires Valid() && AllFit(items)
      modifies this, b
      ensures Valid() && Contents() == old(Contents()) + EncodeAll(items, level) && (b == old(b) || fresh(b))
      decreases items, 1
    {
      hide Encode, Fits;
      var j := 0;
      assert items[0..] == items;
      ghost var done: seq<Byte> := [];
      while j < |items|
        invariant 0 <= j <= |items| && Valid() && (b == old(b) || fresh(b)) && AllFit(items[j..])
        invariant Contents() == old(Contents()) + done && EncodeAll(items, level) == done + EncodeAll(items[j..], level)
      {
        assert items[j..][1..] == items[j + 1..];
        ghost var e, more := Encode(items[j], level), EncodeAll(items[j + 1..], level);
        EncodeType(items[j], level);
        ConcatAssociative(old(Contents()), done, e);
        ConcatAssociative(done, e, more);
        done := done + e;
        j := j + 1;
      }
    }
  }

  datatype Fault = Fine | TooShort | BadData

  // A place in a string of bytes, and what went wrong there.
  class Cursor {
    const data: seq<Byte>
    var p: nat
    var err: Fault

    ghost predicate Valid()
      reads this
    {
      p <= |data|
    }

    // What the cursor has read and where it stands agree with the specified answer.
    ghost predicate Answers(r: Decoded, v: Value)
      reads this
    {
      match r
      case Decoded(w, rest) => err == Fine && p <= |data| && v == w && data[p..] == rest
      case Eof => err == TooShort
      case BadFormat => err == BadData
    }

    constructor (data: seq<Byte>)
      ensures Valid() && this.data == data && p == 0 && err == Fine
    {
      this.data, p, err := data, 0, Fine;
    }

    // A string of `n` bytes, `at` bytes on.
    method DecodeStr(at: nat, n: nat) returns (v: Value)
      requires Valid() && err == Fine && at > 0
      modifies this
      ensures Valid() && p >= old(p) && Answers(ReadStr(old(data[p..]), at, n), v)
    {
      v := Nil;
      if |data| - p < at + n {
        err := TooShort;
        return;
      }
      v := Str(data[p + at..p + at + n]);
      p := p + at + n;
    }

    method DecodeType() returns (v: Value)
      requires Valid() && err == Fine
      modifies this
      ensures Valid() && p >= old(p) && Answers(DecodeValue(old(data[p..])), v)
      decreases |data| - p, 0
    {
      hide Read, DecodeAll;
      ghost var d := data[p..];
      v := Nil;
      if |data| - p < 1 {
        err := TooShort;
        return;
      }
      var tag := data[p];
      if tag <= 0x7F {
        v, p := Int(tag), p + 1;
      } else if tag >= 0xE0 {
        v, p := Int(tag as int - 0x100), p + 1;
      } else if 0xA0 <= tag < 0xC0 {
        v := DecodeStr(1, tag - 0xA0);
      } else if 0x90 <= tag < 0xA0 {
        p := p + 1;
        v := DecodeItems(tag - 0x90, false);
      } else if 0x80 <= tag < 0x90 {
        p := p + 1;
        v := DecodeItems(tag - 0x80, true);
      } else if tag == 0xC0 {
        p := p + 1;
      } else if tag == 0xC2 || tag == 0xC3 {
        v, p := Bool(tag == 0xC3), p + 1;
      } else if tag == 0xCA || tag == 0xCB {
        var k := if tag == 0xCA then 4 else 8;
        if |data| - p < 1 + k {
          err := TooShort;
          return;
        }
        v, p := Float(data[p + 1..p + 1 + k]), p + 1 + k;
      } else if NumberSize(tag) == 0 {
        err := BadData;
      } else {
        var k := NumberSize(tag);
        if |data| - p < 1 + k {
          err := TooShort;
          return;
        }
        assert data[p + 1..p + 1 + k] == d[1..1 + k];
        var n := Read(data[p + 1..p + 1 + k]);
        if tag == 0xCC || tag == 0xCD || tag == 0xCE {
          v, p := Int(n), p + 1 + k;
        } else if tag <= 0xD3 {
          v, p := Int(Signed(n, k)), p + 1 + k;
        } else if tag <= 0xDB {
          v := DecodeStr(1 + k, n);
        } else {
          p := p + 1 + k;
          v := DecodeItems(n, tag >= 0xDE);
        }
      }
    }

    // The items of an array, or the keys and values of a map.
    method DecodeItems(n: nat, pairs: bool) returns (v: Value)
      requires Valid() && err == Fine
      modifies this
      ensures Valid() && p >= old(p)
      ensures Answers(if pairs then MessagePack.DecodeMap(old(data[p..]), n) else MessagePack.DecodeArray(old(data[p..]), n), v)
      decreases |data| - p, 1
    {
      hide DecodeValue;
      var items: seq<Value> := [];
      var left := if pairs then 2 * n else n;
      ghost var d, count := data[p..], left;
      v := Nil;
      while left > 0
        invariant Valid() && err == Fine && p >= old(p) && 0 <= left <= count
        invariant DecodeAll(d, count) == Joined(items, DecodeAll(data[p..], left))
        decreases left
      {
        left := left - 1;
        ghost var before := data[p..];
        var w := DecodeType();
        if err != Fine {
          return;
        }
        items := items + [w];
      }
      v := if pairs then Map(items) else Array(items);
    }
  }

  ghost function Joined(items: seq<Value>, r: DecodedAll): DecodedAll {
    match r
    case DecodedAll(vs, rest) => DecodedAll(items + vs, rest)
    case other => other
  }

  // Values one after the other; at least one is needed.
  method Pack(args: seq<Value>) returns (ok: bool, packed: seq<Byte>)
    requires AllFit(args)
    ensures ok == (args != [])
    ensures ok ==> packed == EncodeAll(args, 0)
  {
    hide Encode, Fits;
    if args == [] {
      return false, [];
    }
    var buf := new Buffer();
    var i := 0;
    packed := [];
    assert args[0..] == args;
    while i < |args|
      invariant 0 <= i <= |args| && buf.Valid() && fresh(buf) && fresh(buf.b) && buf.len == 0 && AllFit(args[i..])
      invariant EncodeAll(args, 0) == packed + EncodeAll(args[i..], 0)
    {
      assert args[i..][1..] == args[i + 1..];
      ghost var more := EncodeAll(args[i + 1..], 0);
      buf.EncodeType(args[i], 0);
      ConcatAssociative(packed, Encode(args[i], 0), more);
      assert buf.b[..buf.len] == Encode(args[i], 0);
      packed := packed + buf.b[..buf.len];
      buf.len := 0;
      i := i + 1;
    }
    ok := true;
  }

  // Unpacks all of the values, or at most `limit` from `offset` on; `next` then tells where to
  // go on, or that there is nothing left.
  method UnpackFull(data: seq<Byte>, limit: int, offset: int) returns (ok: bool, items: seq<Value>, next: int)
    ensures limit < 0 || offset < 0 || offset > |data| ==> !ok
    ensures limit >= 0 && 0 <= offset <= |data| ==>
      match Unpack(data[offset..], if limit == 0 && offset == 0 then 0x7FFF_FFFF else limit)
      case DecodedAll(vs, rest) => ok && items == vs && next == (if rest == [] then -1 else |data| - |rest|)
      case _ => !ok
  {
    hide DecodeValue;
    ok, items, next := false, [], 0;
    if offset < 0 || limit < 0 || offset > |data| {
      return;
    }
    var most := if limit == 0 && offset == 0 then 0x7FFF_FFFF else limit;
    var c := new Cursor(data);
    c.p := offset;
    var count := 0;
    ghost var d := data[offset..];
    while c.p < |data| && count < most
      invariant 0 <= count == |items| <= most && c.Valid() && c.err == Fine && fresh(c) && c.data == data
      invariant Unpack(d, most) == Joined(items, Unpack(data[c.p..], most - count))
      decreases most - count
    {
      ghost var before := data[c.p..];
      var v := c.DecodeType();
      if c.err != Fine {
        return;
      }
      items := items + [v];
      count := count + 1;
    }
    ok, next := true, if c.p == |data| then -1 else c.p;
  }
}
