// MessagePack: values as runs of bytes, each with a tag that says how to read on.

module MessagePack {
  import opened Words

  const NESTING: nat := 16

  // A table is an array of its values, or a map whose keys and values alternate. The bytes of
  // a floating-point number are taken as they are.
  datatype Value =
    | Nil
    | Bool(b: bool)
    | Int(n: int)
    | Float(bytes: seq<Byte>)
    | Str(bytes: seq<Byte>)
    | Array(items: seq<Value>)
    | Map(items: seq<Value>)

  // What the C code can hold: 64-bit numbers, and lengths of 32 bits.
  predicate Fits(v: Value)
    decreases v
  {
    match v
    case Nil => true
    case Bool(_) => true
    case Int(n) => -0x8000_0000_0000_0000 <= n < 0x8000_0000_0000_0000
    case Float(bytes) => |bytes| == 4 || |bytes| == 8
    case Str(bytes) => |bytes| < WORD
    case Array(items) => |items| < WORD && AllFit(items)
    case Map(items) => |items| % 2 == 0 && |items| / 2 < WORD && AllFit(items)
  }

  predicate AllFit(items: seq<Value>)
    decreases items
  {
    items == [] || (Fits(items[0]) && AllFit(items[1..]))
  }

  // ---- numbers, the most significant byte first ----

  function Range(k: nat): (r: nat)
    ensures r > 0
  {
    if k == 0 then 1 else 0x100 * Range(k - 1)
  }

  function Big(n: nat, k: nat): (s: seq<Byte>)
    ensures |s| == k
  {
    if k == 0 then [] else Big(n / 0x100, k - 1) + [n % 0x100]
  }

  function Read(s: seq<Byte>): nat {
    if s == [] then 0 else Read(s[..|s| - 1]) * 0x100 + s[|s| - 1]
  }

  lemma {:induction false} ReadBig(n: nat, k: nat)
    requires n < Range(k)
    ensures Read(Big(n, k)) == n
  {
    if k > 0 {
      ReadBig(n / 0x100, k - 1);
      assert Big(n, k)[..k - 1] == Big(n / 0x100, k - 1);
    }
  }

  lemma Ranges()
    ensures Range(1) == 0x100 && Range(2) == 0x1_0000 && Range(4) == WORD && Range(8) == WORD * WORD
  {
    assert Range(4) == 0x100 * Range(3) && Range(3) == 0x100 * Range(2);
    assert Range(8) == 0x100 * (0x100 * (0x100 * (0x100 * Range(4))));
  }

  // ---- encoding ----

  function IntBytes(n: int): seq<Byte>
    requires Fits(Int(n))
  {
    if 0 <= n <= 0x7F then [n]
    else if 0 <= n <= 0xFF then [0xCC] + Big(n, 1)
    else if 0 <= n <= 0xFFFF then [0xCD] + Big(n, 2)
    else if 0 <= n <= 0xFFFF_FFFF then [0xCE] + Big(n, 4)
    else if 0 <= n then [0xCF] + Big(n, 8)
    else if -32 <= n then [n + 0x100]
    else if -0x80 <= n then [0xD0] + Big(n + 0x100, 1)
    else if -0x8000 <= n then [0xD1] + Big(n + 0x1_0000, 2)
    else if -0x8000_0000 <= n then [0xD2] + Big(n + 0x1_0000_0000, 4)
    else [0xD3] + Big(n + 0x1_0000_0000_0000_0000, 8)
  }

  function StrHead(n: nat): seq<Byte>
    requires n < WORD
  {
    if n < 32 then [0xA0 + n]
    else if n <= 0xFF then [0xD9] + Big(n, 1)
    else if n <= 0xFFFF then [0xDA] + Big(n, 2)
    else [0xDB] + Big(n, 4)
  }

  // The head of an array, or of a map, by its tags for few, some and many.
  function TableHead(n: nat, few: Byte, some: Byte): seq<Byte>
    requires n < WORD && few <= 0xF0 && some < 0xFF
  {
    if n <= 15 then [few + n] else if n <= 0xFFFF then [some] + Big(n, 2) else [some + 1] + Big(n, 4)
  }

  function ArrayHead(n: nat): seq<Byte>
    requires n < WORD
  {
    TableHead(n, 0x90, 0xDC)
  }

  function MapHead(n: nat): seq<Byte>
    requires n < WORD
  {
    TableHead(n, 0x80, 0xDE)
  }

  // Tables nested too deeply are written as nil.
  function Encode(v: Value, level: nat): (s: seq<Byte>)
    requires Fits(v)
    ensures s != []
    decreases v
  {
    match v
    case Nil => [0xC0]
    case Bool(b) => [if b then 0xC3 else 0xC2]
    case Int(n) => IntBytes(n)
    case Float(bytes) => [if |bytes| == 4 then 0xCA else 0xCB] + bytes
    case Str(bytes) => StrHead(|bytes|) + bytes
    case Array(items) => if level == NESTING then [0xC0] else ArrayHead(|items|) + EncodeAll(items, level + 1)
    case Map(items) => if level == NESTING then [0xC0] else MapHead(|items| / 2) + EncodeAll(items, level + 1)
  }

  function EncodeAll(items: seq<Value>, level: nat): seq<Byte>
    requires AllFit(items)
    decreases items
  {
    if items == [] then [] else Encode(items[0], level) + EncodeAll(items[1..], level)
  }

  // Every number has the shortest of the forms that hold it.
  lemma IntShortest(n: int)
    requires Fits(Int(n))
    ensures |IntBytes(n)| ==
      if -32 <= n < 0x80 then 1 else if -0x80 <= n < 0x100 then 2 else if -0x8000 <= n < 0x1_0000 then 3
      else if -0x8000_0000 <= n < 0x1_0000_0000 then 5 else 9
  {
  }

  // The most significant byte comes first.
  lemma {:induction false} BigBytes(n: nat, k: nat, i: nat)
    requires i < k
    ensures Big(n, k)[k - 1 - i] == n / Range(i) % 0x100
  {
    if i > 0 {
      BigBytes(n / 0x100, k - 1, i - 1);
      Ranged(n, i);
    }
  }

  lemma Ranged(n: nat, i: nat)
    requires i > 0
    ensures n / Range(i) == n / 0x100 / Range(i - 1)
  {
    var r := Range(i - 1);
    var q := n / 0x100 / r;
    DivBracket(n / 0x100, r, q);
    DivBracket(n / 0x100, r, q + 1);
    var a, b := n / 0x100, n % 0x100;
    assert n == 0x100 * a + b;
    assert q * r <= a < (q + 1) * r;
    assert q * (0x100 * r) == 0x100 * (q * r) && (q + 1) * (0x100 * r) == 0x100 * ((q + 1) * r);
    DivBracket(n, 0x100 * r, q);
    DivBracket(n, 0x100 * r, q + 1);
  }

  // Forms and tags of the MessagePack specification.
  lemma KnownForms()
    ensures Encode(Nil, 0) == [0xC0] && Encode(Bool(false), 0) == [0xC2] && Encode(Bool(true), 0) == [0xC3]
    ensures IntBytes(0x7F) == [0x7F] && IntBytes(0x80) == [0xCC, 0x80] && IntBytes(0x100) == [0xCD, 1, 0]
    ensures IntBytes(0x1_0000)[0] == 0xCE && IntBytes(0x1_0000_0000)[0] == 0xCF
    ensures IntBytes(-1) == [0xFF] && IntBytes(-33) == [0xD0, 0xDF] && IntBytes(-0x81) == [0xD1, 0xFF, 0x7F]
    ensures IntBytes(-0x8001)[0] == 0xD2 && IntBytes(-0x8000_0001)[0] == 0xD3
    ensures StrHead(0) == [0xA0] && StrHead(0x20) == [0xD9, 0x20] && StrHead(0x100) == [0xDA, 1, 0] && StrHead(0x1_0000)[0] == 0xDB
    ensures ArrayHead(0) == [0x90] && ArrayHead(0x10) == [0xDC, 0, 0x10] && ArrayHead(0x1_0000)[0] == 0xDD
    ensures MapHead(0) == [0x80] && MapHead(0x10) == [0xDE, 0, 0x10] && MapHead(0x1_0000)[0] == 0xDF
  {
    BigOnes(0x80);
    BigOnes(0xDF);
    BigOnes(0x20);
    BigTwos(0x100);
    BigTwos(0xFF7F);
    BigTwos(0x10);
  }

  lemma BigOnes(n: nat)
    requires n < 0x100
    ensures Big(n, 1) == [n]
  {
  }

  lemma BigTwos(n: nat)
    requires n < 0x1_0000
    ensures Big(n, 2) == [n / 0x100, n % 0x100]
  {
    BigOnes(n / 0x100);
  }

  // What is left of a value when tables nested too deeply are gone.
  function Cut(v: Value, level: nat): Value
    decreases v
  {
    match v
    case Array(items) => if level == NESTING then Nil else Array(CutAll(items, level + 1))
    case Map(items) => if level == NESTING then Nil else Map(CutAll(items, level + 1))
    case _ => v
  }

  function CutAll(items: seq<Value>, level: nat): (r: seq<Value>)
    ensures |r| == |items|
    decreases items
  {
    if items == [] then [] else [Cut(items[0], level)] + CutAll(items[1..], level)
  }

  // ---- decoding ----

  datatype Decoded = Decoded(v: Value, rest: seq<Byte>) | Eof | BadFormat

  datatype DecodedAll = DecodedAll(vs: seq<Value>, rest: seq<Byte>) | EofAll | BadFormatAll

  // A number as the bits of a word of `k` bytes.
  function Signed(n: nat, k: nat): int {
    if n < Range(k) / 2 then n else n - Range(k)
  }

  function ReadStr(d: seq<Byte>, at: nat, n: nat): (r: Decoded)
    requires at > 0
    ensures r.Decoded? ==> |r.rest| < |d|
  {
    if |d| < at + n then Eof else Decoded(Str(d[at..at + n]), d[at + n..])
  }

  // The number of bytes after the tag that make up a number or a length; none if the tag is
  // not of that kind.
  function NumberSize(tag: Byte): nat {
    if tag == 0xCC || tag == 0xD0 || tag == 0xD9 then 1
    else if tag == 0xCD || tag == 0xD1 || tag == 0xDA || tag == 0xDC || tag == 0xDE then 2
    else if tag == 0xCE || tag == 0xD2 || tag == 0xDB || tag == 0xDD || tag == 0xDF then 4
    else if tag == 0xCF || tag == 0xD3 then 8
    else 0
  }

  function DecodeValue(d: seq<Byte>): (r: Decoded)
    ensures r.Decoded? ==> |r.rest| < |d|
    decreases |d|, 0
  {
    if d == [] then Eof
    else
      var tag := d[0];
      if tag <= 0x7F then Decoded(Int(tag), d[1..])
      else if tag >= 0xE0 then Decoded(Int(tag as int - 0x100), d[1..])
      else if 0xA0 <= tag < 0xC0 then ReadStr(d, 1, tag - 0xA0)
      else if 0x90 <= tag < 0xA0 then DecodeArray(d[1..], tag - 0x90)
      else if 0x80 <= tag < 0x90 then DecodeMap(d[1..], tag - 0x80)
      else if tag == 0xC0 then Decoded(Nil, d[1..])
      else if tag == 0xC2 || tag == 0xC3 then Decoded(Bool(tag == 0xC3), d[1..])
      else if tag == 0xCA then (if |d| < 5 then Eof else Decoded(Float(d[1..5]), d[5..]))
      else if tag == 0xCB then (if |d| < 9 then Eof else Decoded(Float(d[1..9]), d[9..]))
      else if NumberSize(tag) == 0 then BadFormat
      else
        var k := NumberSize(tag);
        if |d| < 1 + k then Eof
        else
          var n := Read(d[1..1 + k]);
          if tag == 0xCC || tag == 0xCD || tag == 0xCE then Decoded(Int(n), d[1 + k..])
          else if tag <= 0xD3 then Decoded(Int(Signed(n, k)), d[1 + k..])
          else if tag <= 0xDB then ReadStr(d, 1 + k, n)
          else if tag <= 0xDD then DecodeArray(d[1 + k..], n)
          else DecodeMap(d[1 + k..], n)
  }

  function DecodeArray(d: seq<Byte>, n: nat): (r: Decoded)
    ensures r.Decoded? ==> |r.rest| <= |d|
    decreases |d|, 2
  {
    match DecodeAll(d, n)
    case DecodedAll(vs, rest) => Decoded(Array(vs), rest)
    case EofAll => Eof
    case BadFormatAll => BadFormat
  }

  function DecodeMap(d: seq<Byte>, n: nat): (r: Decoded)
    ensures r.Decoded? ==> |r.rest| <= |d|
    decreases |d|, 2
  {
    match DecodeAll(d, 2 * n)
    case DecodedAll(vs, rest) => Decoded(Map(vs), rest)
    case EofAll => Eof
    case BadFormatAll => BadFormat
  }

  function DecodeAll(d: seq<Byte>, n: nat): (r: DecodedAll)
    ensures r.DecodedAll? ==> |r.rest| <= |d| && |r.vs| == n
    decreases |d|, 1
  {
    if n == 0 then DecodedAll([], d)
    else
      match DecodeValue(d)
      case Eof => EofAll
      case BadFormat => BadFormatAll
      case Decoded(v, rest) =>
        match DecodeAll(rest, n - 1)
        case DecodedAll(vs, rest') => DecodedAll([v] + vs, rest')
        case other => other
  }

  // The tags of MessagePack that are not known here: the one that is never used, those of bytes
  // and those of extensions.
  predicate Unknown(tag: Byte) {
    tag == 0xC1 || 0xC4 <= tag <= 0xC9 || 0xD4 <= tag <= 0xD8
  }

  // With as many bytes behind them as they need, exactly these tags are a bad format; strings and
  // tables may be cut short or hold a bad value themselves.
  lemma UnknownTags(d: seq<Byte>)
    requires |d| >= 9
    ensures Unknown(d[0]) ==> DecodeValue(d) == BadFormat
    ensures DecodeValue(d) == BadFormat ==> Unknown(d[0]) || 0x80 <= d[0] < 0xA0 || 0xDC <= d[0] <= 0xDF
  {
    hide DecodeAll, Read, Signed;
  }

  // ---- round trip ----

  lemma Numbered(tag: Byte, n: nat, k: nat, rest: seq<Byte>)
    requires NumberSize(tag) == k > 0 && n < Range(k)
    ensures var d := [tag] + Big(n, k) + rest;
      |d| >= 1 + k && d[0] == tag && Read(d[1..1 + k]) == n && d[1 + k..] == rest
  {
    var d := [tag] + Big(n, k) + rest;
    assert d[1..1 + k] == Big(n, k);
    ReadBig(n, k);
  }

  lemma IntBack(n: int, rest: seq<Byte>)
    requires Fits(Int(n))
    ensures DecodeValue(IntBytes(n) + rest) == Decoded(Int(n), rest)
  {
    hide Read, Big;
    Ranges();
    var d := IntBytes(n) + rest;
    if n > 0x7F || n < -32 {
      var k := if -0x80 <= n <= 0xFF then 1 else if -0x8000 <= n <= 0xFFFF then 2 else if -0x8000_0000 <= n <= 0xFFFF_FFFF then 4 else 8;
      Numbered(d[0], if n < 0 then n + Range(k) else n, k, rest);
    } else {
      assert d[1..] == rest;
    }
  }

  lemma StrBack(bytes: seq<Byte>, rest: seq<Byte>)
    requires |bytes| < WORD
    ensures DecodeValue(StrHead(|bytes|) + bytes + rest) == Decoded(Str(bytes), rest)
  {
    hide Read, Big;
    Ranges();
    var n := |bytes|;
    var d := StrHead(n) + bytes + rest;
    if n < 32 {
      assert d[1..1 + n] == bytes && d[1 + n..] == rest;
    } else {
      var k := if n <= 0xFF then 1 else if n <= 0xFFFF then 2 else 4;
      Numbered(d[0], n, k, bytes + rest);
      assert d == [d[0]] + Big(n, k) + (bytes + rest);
      assert d[1 + k..1 + k + n] == bytes && d[1 + k + n..] == rest;
    }
  }

  // Behind its head a table is read as its items.
  lemma TableBack(n: nat, few: Byte, some: Byte, more: seq<Byte>)
    requires n < WORD && ((few == 0x90 && some == 0xDC) || (few == 0x80 && some == 0xDE))
    ensures DecodeValue(TableHead(n, few, some) + more) == if few == 0x90 then DecodeArray(more, n) else DecodeMap(more, n)
  {
    hide Read, Big, DecodeArray, DecodeMap;
    Ranges();
    var d := TableHead(n, few, some) + more;
    if n <= 15 {
      assert d[1..] == more;
    } else {
      var k := if n <= 0xFFFF then 2 else 4;
      Numbered(d[0], n, k, more);
    }
  }

  // What is written is read again, down to the nesting that is written, and nothing more.
  lemma {:induction false} RoundTrip(v: Value, level: nat, rest: seq<Byte>)
    requires Fits(v)
    ensures DecodeValue(Encode(v, level) + rest) == Decoded(Cut(v, level), rest)
    decreases v
  {
    var d := Encode(v, level) + rest;
    match v
    case Nil => assert d[1..] == rest;
    case Bool(_) => assert d[1..] == rest;
    case Int(n) => IntBack(n, rest);
    case Float(bytes) => assert d[1..1 + |bytes|] == bytes && d[1 + |bytes|..] == rest;
    case Str(bytes) => StrBack(bytes, rest);
    case Array(items) =>
      if level == NESTING {
        assert d[1..] == rest;
      } else {
        hide DecodeValue;
        var more := EncodeAll(items, level + 1) + rest;
        ConcatAssociative(ArrayHead(|items|), EncodeAll(items, level + 1), rest);
        TableBack(|items|, 0x90, 0xDC, more);
        RoundTripAll(items, level + 1, rest);
      }
    case Map(items) =>
      if level == NESTING {
        assert d[1..] == rest;
      } else {
        hide DecodeValue;
        var more := EncodeAll(items, level + 1) + rest;
        ConcatAssociative(MapHead(|items| / 2), EncodeAll(items, level + 1), rest);
        TableBack(|items| / 2, 0x80, 0xDE, more);
        RoundTripAll(items, level + 1, rest);
      }
  }

  lemma {:induction false} RoundTripAll(items: seq<Value>, level: nat, rest: seq<Byte>)
    requires AllFit(items)
    ensures DecodeAll(EncodeAll(items, level) + rest, |items|) == DecodedAll(CutAll(items, level), rest)
    decreases items
  {
    if items == [] {
      assert EncodeAll(items, level) + rest == rest;
    } else {
      hide Encode, Cut, DecodeValue;
      var a, b := Encode(items[0], level), EncodeAll(items[1..], level);
      ConcatAssociative(a, b, rest);
      RoundTrip(items[0], level, b + rest);
      RoundTripAll(items[1..], level, rest);
    }
  }

  // ---- input that ends too soon ----

  // Bytes that end before the tag's number does are too few.
  lemma ShortNumber(d: seq<Byte>)
    requires d != [] && NumberSize(d[0]) > 0 && |d| < 1 + NumberSize(d[0])
    ensures DecodeValue(d) == Eof
  {
  }

  lemma StrShort(bytes: seq<Byte>, i: nat)
    requires |bytes| < WORD && i < |StrHead(|bytes|)| + |bytes|
    ensures DecodeValue((StrHead(|bytes|) + bytes)[..i]) == Eof
  {
    hide Read, Big;
    Ranges();
    var n := |bytes|;
    var d := (StrHead(n) + bytes)[..i];
    if n >= 32 && i > 0 {
      var k := if n <= 0xFF then 1 else if n <= 0xFFFF then 2 else 4;
      if i < 1 + k {
        ShortNumber(d);
      } else {
        Numbered(d[0], n, k, bytes[..i - 1 - k]);
        assert d == [d[0]] + Big(n, k) + bytes[..i - 1 - k];
      }
    }
  }

  lemma TableShort(n: nat, few: Byte, some: Byte, more: seq<Byte>, i: nat)
    requires n < WORD && ((few == 0x90 && some == 0xDC) || (few == 0x80 && some == 0xDE))
    requires i < |TableHead(n, few, some)|
    ensures DecodeValue((TableHead(n, few, some) + more)[..i]) == Eof
  {
    hide Read, Big, DecodeArray, DecodeMap;
    var d := (TableHead(n, few, some) + more)[..i];
    if i > 0 {
      ShortNumber(d);
    }
  }

  lemma IntShort(n: int, i: nat)
    requires Fits(Int(n)) && i < |IntBytes(n)|
    ensures DecodeValue(IntBytes(n)[..i]) == Eof
  {
    hide Read, Big;
    if i > 0 {
      ShortNumber(IntBytes(n)[..i]);
    }
  }

  // No proper beginning of what is written can be read: the input ends too soon.
  lemma {:induction false} Unfinished(v: Value, level: nat, i: nat)
    requires Fits(v) && i < |Encode(v, level)|
    ensures DecodeValue(Encode(v, level)[..i]) == Eof
    decreases v
  {
    match v
    case Nil =>
    case Bool(_) =>
    case Int(n) => IntShort(n, i);
    case Float(bytes) =>
    case Str(bytes) => StrShort(bytes, i);
    case Array(items) =>
      if level < NESTING || level > NESTING {
        TableUnfinished(items, level, i, |items|, 0x90, 0xDC);
      }
    case Map(items) =>
      if level < NESTING || level > NESTING {
        TableUnfinished(items, level, i, |items| / 2, 0x80, 0xDE);
      }
  }

  lemma {:induction false} TableUnfinished(items: seq<Value>, level: nat, i: nat, n: nat, few: Byte, some: Byte)
    requires AllFit(items) && n < WORD
    requires (few == 0x90 && some == 0xDC && n == |items|) || (few == 0x80 && some == 0xDE && 2 * n == |items|)
    requires i < |TableHead(n, few, some)| + |EncodeAll(items, level + 1)|
    ensures DecodeValue((TableHead(n, few, some) + EncodeAll(items, level + 1))[..i]) == Eof
    decreases items, 1
  {
    hide DecodeValue, TableHead;
    var head, body := TableHead(n, few, some), EncodeAll(items, level + 1);
    if i < |head| {
      TableShort(n, few, some, body, i);
    } else {
      assert (head + body)[..i] == head + body[..i - |head|];
      TableBack(n, few, some, body[..i - |head|]);
      UnfinishedAll(items, level + 1, i - |head|);
    }
  }

  lemma {:induction false} UnfinishedAll(items: seq<Value>, level: nat, i: nat)
    requires AllFit(items) && i < |EncodeAll(items, level)|
    ensures DecodeAll(EncodeAll(items, level)[..i], |items|) == EofAll
    decreases items, 0
  {
    hide Encode, Cut, DecodeValue;
    var a, b := Encode(items[0], level), EncodeAll(items[1..], level);
    if i < |a| {
      assert (a + b)[..i] == a[..i];
      Unfinished(items[0], level, i);
    } else {
      assert (a + b)[..i] == a + b[..i - |a|];
      RoundTrip(items[0], level, b[..i - |a|]);
      UnfinishedAll(items[1..], level, i - |a|);
    }
  }

  // ---- streams of values ----

  // At most `limit` values, or as many as there are.
  function Unpack(d: seq<Byte>, limit: nat): DecodedAll
    decreases limit
  {
    if d == [] || limit == 0 then DecodedAll([], d)
    else
      match DecodeValue(d)
      case Eof => EofAll
      case BadFormat => BadFormatAll
      case Decoded(v, rest) =>
        match Unpack(rest, limit - 1)
        case DecodedAll(vs, rest') => DecodedAll([v] + vs, rest')
        case other => other
  }

  function Prefixed(v: Value, r: DecodedAll): DecodedAll {
    match r
    case DecodedAll(vs, rest) => DecodedAll([v] + vs, rest)
    case other => other
  }

  lemma UnpackOne(v: Value, more: seq<Byte>, limit: nat)
    requires Fits(v) && limit > 0
    ensures Unpack(Encode(v, 0) + more, limit) == Prefixed(Cut(v, 0), Unpack(more, limit - 1))
  {
    hide Encode, Cut, DecodeValue;
    RoundTrip(v, 0, more);
  }

  lemma OneMore(items: seq<Value>, n: nat)
    requires AllFit(items) && 0 < n <= |items|
    ensures Fits(items[0]) && AllFit(items[1..]) && EncodeAll(items, 0) == Encode(items[0], 0) + EncodeAll(items[1..], 0)
    ensures CutAll(items[..n], 0) == [Cut(items[0], 0)] + CutAll(items[1..][..n - 1], 0)
    ensures items[1..][n - 1..] == items[n..]
  {
    assert items[..n][1..] == items[1..][..n - 1];
  }

  lemma UnpackNone(d: seq<Byte>, limit: nat)
    requires d == [] || limit == 0
    ensures Unpack(d, limit) == DecodedAll([], d)
  {
  }

  lemma NoItems()
    ensures EncodeAll([], 0) == []
  {
  }

  // What the first values are unpacked to, and what is left for another call.
  ghost predicate Streamed(items: seq<Value>, n: nat, r: DecodedAll)
    requires n <= |items|
  {
    AllFit(items[n..]) && r == DecodedAll(CutAll(items[..n], 0), EncodeAll(items[n..], 0))
  }

  lemma StreamedMore(items: seq<Value>, n: nat, r: DecodedAll)
    requires AllFit(items) && 0 < n <= |items| && Streamed(items[1..], n - 1, r)
    ensures Streamed(items, n, Prefixed(Cut(items[0], 0), r))
  {
    hide Encode, EncodeAll, Cut, CutAll, Fits, AllFit;
    OneMore(items, n);
  }

  lemma StreamedNone(items: seq<Value>)
    requires AllFit(items)
    ensures Streamed(items, 0, DecodedAll([], EncodeAll(items, 0)))
  {
    assert items[0..] == items && items[..0] == [];
  }

  // What was packed is unpacked, as much of it as is asked for.
  lemma {:induction false} StreamBack(items: seq<Value>, limit: nat)
    requires AllFit(items)
    ensures Streamed(items, Min(limit, |items|), Unpack(EncodeAll(items, 0), limit))
    decreases limit
  {
    hide Encode, EncodeAll, Cut, CutAll, DecodeValue, Unpack, Fits, AllFit, Streamed, Prefixed;
    if limit == 0 || items == [] {
      StreamedNone(items);
      NoItems();
      UnpackNone(EncodeAll(items, 0), limit);
    } else {
      OneMore(items, 1);
      UnpackOne(items[0], EncodeAll(items[1..], 0), limit);
      StreamBack(items[1..], limit - 1);
      StreamedMore(items, Min(limit, |items|), Unpack(EncodeAll(items[1..], 0), limit - 1));
    }
  }
}
