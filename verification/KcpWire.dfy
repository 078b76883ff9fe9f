// The wire format of KCP: a datagram is a run of segments, each a 24-byte little-endian
// header and its data.

module KcpWire {
  import opened Words

  const OVERHEAD: nat := 24
  const CMD_PUSH: Byte := 81
  const CMD_ACK: Byte := 82
  const CMD_WASK: Byte := 83
  const CMD_WINS: Byte := 84

  datatype Segment = Segment(
    conv: U32, cmd: Byte, frg: Byte, wnd: U16, ts: U32, sn: U32, una: U32, data: seq<Byte>)

  // Sequence numbers and times are compared by the sign of their 32-bit difference.
  function TimeDiff(later: int, earlier: int): int {
    var d := (later - earlier) % WORD;
    if d < WORD / 2 then d else d - WORD
  }

  lemma TimeDiffExact(a: int, b: int)
    requires -(WORD / 2) <= a - b < WORD / 2
    ensures TimeDiff(a, b) == a - b
  {
  }

  function Encode16(w: U16): (r: seq<Byte>)
    ensures |r| == 2
  {
    [w % 0x100, w / 0x100]
  }

  function Encode32(w: U32): (r: seq<Byte>)
    ensures |r| == 4
  {
    [w % 0x100, w / 0x100 % 0x100, w / 0x1_0000 % 0x100, w / 0x100_0000]
  }

  function Decode16(s: seq<Byte>): U16
    requires |s| >= 2
  {
    s[0] as int + s[1] as int * 0x100
  }

  function Decode32(s: seq<Byte>): U32
    requires |s| >= 4
  {
    s[0] as int + s[1] as int * 0x100 + s[2] as int * 0x1_0000 + s[3] as int * 0x100_0000
  }

  lemma Decode32Inverse(w: U32, rest: seq<Byte>)
    ensures Decode32(Encode32(w) + rest) == w
  {
    var b1 := w / 0x100;
    var b2 := w / 0x1_0000;
    var b3 := w / 0x100_0000;
    assert b2 == b1 / 0x100 && b3 == b2 / 0x100;
    assert w == b1 * 0x100 + w % 0x100 && b1 == b2 * 0x100 + b1 % 0x100 && b2 == b3 * 0x100 + b2 % 0x100;
  }

  lemma Decode16Inverse(w: U16, rest: seq<Byte>)
    ensures Decode16(Encode16(w) + rest) == w
  {
  }

  // The length field is 32 bits wide.
  function EncodeHeader(s: Segment): (r: seq<Byte>)
    ensures |r| == OVERHEAD
  {
    Encode32(s.conv) + [s.cmd] + [s.frg] + Encode16(s.wnd) + Encode32(s.ts) + Encode32(s.sn) + Encode32(s.una) + Encode32(|s.data| % WORD)
  }

  predicate Encodable(segments: seq<Segment>) {
    forall s <- segments :: |s.data| < WORD
  }

  // The bytes of a run of segments.
  function Encode(segments: seq<Segment>): seq<Byte> {
    if segments == [] then [] else EncodeHeader(segments[0]) + segments[0].data + Encode(segments[1..])
  }

  lemma EncodeNothing()
    ensures Encode([]) == []
  {
  }

  // A header read back from the front of a datagram; the data length is its last field.
  function DecodeHeader(d: seq<Byte>): (Segment, U32)
    requires |d| >= OVERHEAD
  {
    (Segment(Decode32(d), d[4], d[5], Decode16(d[6..]), Decode32(d[8..]), Decode32(d[12..]), Decode32(d[16..]), []),
     Decode32(d[20..]))
  }

  lemma HeaderInverse(s: Segment, rest: seq<Byte>)
    requires |s.data| < WORD
    ensures DecodeHeader(EncodeHeader(s) + rest) == (s.(data := []), |s.data|)
  {
    hide Encode32, Encode16, Decode32, Decode16;
    var d := EncodeHeader(s) + rest;
    var t6 := Encode32(|s.data|) + rest;
    var t5 := Encode32(s.una) + t6;
    var t4 := Encode32(s.sn) + t5;
    var t3 := Encode32(s.ts) + t4;
    var t2 := Encode16(s.wnd) + t3;
    assert d == Encode32(s.conv) + ([s.cmd] + [s.frg] + t2);
    assert d[6..] == t2;
    assert d[8..] == t3;
    assert d[12..] == t4;
    assert d[16..] == t5;
    assert d[20..] == t6;
    Decode32Inverse(s.conv, [s.cmd] + [s.frg] + t2);
    Decode16Inverse(s.wnd, t3);
    Decode32Inverse(s.ts, t4);
    Decode32Inverse(s.sn, t5);
    Decode32Inverse(s.una, t6);
    Decode32Inverse(|s.data|, rest);
  }

  // The number that `k` bytes stand for, the least significant first.
  function Little(s: seq<Byte>, i: nat, k: nat): nat
    requires i + k <= |s|
    decreases k
  {
    if k == 0 then 0 else s[i] + 0x100 * Little(s, i + 1, k - 1)
  }

  // Where the fields of a header are.
  lemma HeaderLayout(s: Segment)
    requires |s.data| < WORD
    ensures var h := EncodeHeader(s);
      && Little(h, 0, 4) == s.conv && h[4] == s.cmd && h[5] == s.frg && Little(h, 6, 2) == s.wnd && Little(h, 8, 4) == s.ts
      && Little(h, 12, 4) == s.sn && Little(h, 16, 4) == s.una && Little(h, 20, 4) == |s.data|
  {
    hide Encode32, Encode16;
    var h := EncodeHeader(s);
    assert h[0..4] == Encode32(s.conv) && h[6..8] == Encode16(s.wnd) && h[8..12] == Encode32(s.ts);
    assert h[12..16] == Encode32(s.sn) && h[16..20] == Encode32(s.una) && h[20..24] == Encode32(|s.data|);
    LittleWord(h, 0, s.conv);
    LittleHalf(h, 6, s.wnd);
    LittleWord(h, 8, s.ts);
    LittleWord(h, 12, s.sn);
    LittleWord(h, 16, s.una);
    LittleWord(h, 20, |s.data|);
  }

  lemma LittleWord(h: seq<Byte>, i: nat, w: U32)
    requires i + 4 <= |h| && h[i..i + 4] == Encode32(w)
    ensures Little(h, i, 4) == w
  {
    assert h[i] == h[i..i + 4][0] && h[i + 1] == h[i..i + 4][1] && h[i + 2] == h[i..i + 4][2] && h[i + 3] == h[i..i + 4][3];
    assert Little(h, i + 3, 1) == h[i + 3] as int;
    assert Little(h, i + 2, 2) == h[i + 2] as int + 0x100 * h[i + 3] as int;
    Decode32Inverse(w, []);
    assert Encode32(w) + [] == Encode32(w);
  }

  lemma LittleHalf(h: seq<Byte>, i: nat, w: U16)
    requires i + 2 <= |h| && h[i..i + 2] == Encode16(w)
    ensures Little(h, i, 2) == w
  {
    assert h[i] == h[i..i + 2][0] && h[i + 1] == h[i..i + 2][1];
    assert Little(h, i + 2, 0) == 0;
  }
}
