// What the operations of a KCP endpoint do, as functions on the part of its state that
// carries data. Timers and the congestion window only decide how many segments are numbered
// and which are sent again, so a flush is a function of an arbitrary FlushEnv.

module KcpSpec {
  import opened Words
  import opened KcpWire

  // A piece of a message: how many pieces follow it, and its bytes.
  datatype Piece = Piece(frg: Byte, data: seq<Byte>)

  // A numbered segment that is not yet acknowledged.
  datatype Flight = Flight(seg: Segment, resendts: U32, rto: U32, fastack: U32, xmit: U32)

  // The most data a segment may carry: the mtu less a header.
  type Mss = x: int | 0 < x < 0x1_0000_0000 witness 1

  datatype Endpoint = Endpoint(
    conv: U32, mss: Mss, rcvWnd: nat,
    sndUna: U32, sndNxt: U32, sndQueue: seq<Piece>, sndBuf: seq<Flight>,
    rcvNxt: U32, rcvBuf: seq<Segment>, rcvQueue: seq<Segment>,
    acks: seq<(U32, U32)>)

  // ---- sending and receiving messages ----

  function PieceCount(length: nat, mss: nat): (count: nat)
    requires mss > 0
    ensures count > 0 && (count - 1) * mss <= length <= count * mss
  {
    if length <= mss then 1
    else
      CeilingDivision(length, mss);
      (length + mss - 1) / mss
  }

  lemma CeilingDivision(length: nat, mss: nat)
    requires 0 < mss < length
    ensures var q := (length + mss - 1) / mss; 0 < q && (q - 1) * mss <= length <= q * mss
  {
    var q, r := (length + mss - 1) / mss, (length + mss - 1) % mss;
    assert length + mss - 1 == mss * q + r;
    assert (q - 1) * mss == mss * q - mss;
  }

  // Full pieces first, numbered down to zero.
  function Split(message: seq<Byte>, mss: nat, count: nat): (pieces: seq<Piece>)
    requires 0 < count <= 0x100 && (count - 1) * mss <= |message|
    ensures |pieces| == count
    decreases count
  {
    if count == 1 then [Piece(0, message)]
    else
      assert (count - 1) * mss == (count - 2) * mss + mss;
      [Piece((count - 1) as Byte, message[..mss])] + Split(message[mss..], mss, count - 1)
  }

  // Negative codes are the failures of the C code.
  function Send(e: Endpoint, message: seq<Byte>): (Endpoint, int) {
    var count := PieceCount(|message|, e.mss);
    if count > 255 then (e, -2) else (e.(sndQueue := e.sndQueue + Split(message, e.mss, count)), 0)
  }

  // The number of segments up to the end of the first message.
  function HeadCount(queue: seq<Segment>): (n: nat)
    ensures n <= |queue|
  {
    if queue == [] then 0 else if queue[0].frg == 0 then 1 else 1 + HeadCount(queue[1..])
  }

  function Joined(queue: seq<Segment>): seq<Byte> {
    if queue == [] then [] else queue[0].data + Joined(queue[1..])
  }

  // The size of the first message, or -1 if it is not complete.
  function PeekSize(queue: seq<Segment>): int {
    if queue == [] then -1
    else if queue[0].frg == 0 then |queue[0].data|
    else if |queue| < queue[0].frg as int + 1 then -1
    else |Joined(queue[..HeadCount(queue)])|
  }

  // In-order segments leave the reordering buffer while the receive queue has room.
  function Advance(e: Endpoint): Endpoint
    decreases |e.rcvBuf|
  {
    if e.rcvBuf != [] && e.rcvBuf[0].sn == e.rcvNxt && |e.rcvQueue| < e.rcvWnd then
      Advance(e.(rcvNxt := (e.rcvNxt + 1) % WORD, rcvBuf := e.rcvBuf[1..], rcvQueue := e.rcvQueue + [e.rcvBuf[0]]))
    else e
  }

  datatype Received = Received(endpoint: Endpoint, code: int, message: seq<Byte>)

  // A negative length peeks: the message stays in the queue.
  function Recv(e: Endpoint, length: int): Received {
    var size := PeekSize(e.rcvQueue);
    var room := if length < 0 then -length else length;
    if e.rcvQueue == [] then Received(e, -1, [])
    else if size < 0 then Received(e, -2, [])
    else if size > room then Received(e, -3, [])
    else
      var n := HeadCount(e.rcvQueue);
      var message := Joined(e.rcvQueue[..n]);
      Received(Advance(if length < 0 then e else e.(rcvQueue := e.rcvQueue[n..])), |message|, message)
  }

  // ---- a datagram arrives ----

  function DropAcknowledged(buf: seq<Flight>, una: U32): seq<Flight> {
    if buf != [] && TimeDiff(una, buf[0].seg.sn) > 0 then DropAcknowledged(buf[1..], una) else buf
  }

  function Shrink(e: Endpoint): Endpoint {
    e.(sndUna := if e.sndBuf == [] then e.sndNxt else e.sndBuf[0].seg.sn)
  }

  predicate InFlight(e: Endpoint, sn: U32) {
    TimeDiff(sn, e.sndUna) >= 0 && TimeDiff(sn, e.sndNxt) < 0
  }

  function Remove(buf: seq<Flight>, sn: U32): seq<Flight> {
    if buf == [] then []
    else if sn == buf[0].seg.sn then buf[1..]
    else if TimeDiff(sn, buf[0].seg.sn) < 0 then buf
    else [buf[0]] + Remove(buf[1..], sn)
  }

  function ParseAck(e: Endpoint, sn: U32): Endpoint {
    if InFlight(e, sn) then e.(sndBuf := Remove(e.sndBuf, sn)) else e
  }

  function CountSkipped(buf: seq<Flight>, sn: U32): seq<Flight> {
    if buf == [] || TimeDiff(sn, buf[0].seg.sn) < 0 then buf
    else [if sn == buf[0].seg.sn then buf[0] else buf[0].(fastack := (buf[0].fastack + 1) % WORD)] + CountSkipped(buf[1..], sn)
  }

  function ParseFastAck(e: Endpoint, sn: U32): Endpoint {
    if InFlight(e, sn) then e.(sndBuf := CountSkipped(e.sndBuf, sn)) else e
  }

  // Where a segment belongs, looking from the back: behind the last one it does not precede,
  // unless that one carries the same number.
  function Insert(buf: seq<Segment>, s: Segment): seq<Segment> {
    if buf == [] then [s]
    else
      var last := buf[|buf| - 1];
      if last.sn == s.sn then buf
      else if TimeDiff(s.sn, last.sn) > 0 then buf + [s]
      else Insert(buf[..|buf| - 1], s) + [last]
  }

  function ParseData(e: Endpoint, s: Segment): Endpoint {
    if TimeDiff(s.sn, (e.rcvNxt + e.rcvWnd) % WORD) >= 0 || TimeDiff(s.sn, e.rcvNxt) < 0 then e
    else Advance(e.(rcvBuf := Insert(e.rcvBuf, s)))
  }

  function InputSegment(e: Endpoint, s: Segment): Endpoint {
    var e1 := Shrink(e.(sndBuf := DropAcknowledged(e.sndBuf, s.una)));
    if s.cmd == CMD_ACK then Shrink(ParseAck(e1, s.sn))
    else if s.cmd == CMD_PUSH && TimeDiff(s.sn, (e1.rcvNxt + e1.rcvWnd) % WORD) < 0 then
      var e2 := e1.(acks := e1.acks + [(s.sn, s.ts)]);
      if TimeDiff(s.sn, e2.rcvNxt) >= 0 then ParseData(e2, s) else e2
    else e1
  }

  // The largest acknowledged number of the datagram so far, if any.
  datatype MaxAck = NoAck | MaxAck(sn: U32)

  function Later(m: MaxAck, s: Segment): MaxAck {
    if s.cmd != CMD_ACK then m
    else if m == NoAck || TimeDiff(s.sn, m.sn) > 0 then MaxAck(s.sn)
    else m
  }

  function FinishInput(e: Endpoint, m: MaxAck): Endpoint {
    if m == NoAck then e else ParseFastAck(e, m.sn)
  }

  predicate KnownCommand(cmd: Byte) {
    cmd == CMD_PUSH || cmd == CMD_ACK || cmd == CMD_WASK || cmd == CMD_WINS
  }

  function InputFrom(e: Endpoint, d: seq<Byte>, m: MaxAck): (Endpoint, int)
    decreases |d|
  {
    if |d| < OVERHEAD then (FinishInput(e, m), 0)
    else
      var (s, length) := DecodeHeader(d);
      if s.conv != e.conv then (e, -1)
      else if |d| - OVERHEAD < length then (e, -2)
      else if !KnownCommand(s.cmd) then (e, -3)
      else
        var s' := s.(data := d[OVERHEAD..OVERHEAD + length]);
        InputFrom(InputSegment(e, s'), d[OVERHEAD + length..], Later(m, s'))
  }

  function Input(e: Endpoint, d: seq<Byte>): (Endpoint, int) {
    if |d| < OVERHEAD then (e, -1) else InputFrom(e, d, NoAck)
  }

  // ---- a flush ----

  // What the clock, the congestion window and the probe flags contribute to a flush.
  datatype FlushEnv = FlushEnv(
    current: U32, cwnd: U32, rto: U32, nodelay: bool, resent: U32, rtomin: U32, ask: bool, tell: bool)

  function Unused(e: Endpoint): U16 {
    (if |e.rcvQueue| < e.rcvWnd then e.rcvWnd - |e.rcvQueue| else 0) % 0x1_0000
  }

  function Control(e: Endpoint, cmd: Byte, sn: U32, ts: U32): Segment {
    Segment(e.conv, cmd, 0, Unused(e), ts, sn, e.rcvNxt, [])
  }

  function AckSegments(e: Endpoint, acks: seq<(U32, U32)>): seq<Segment> {
    if acks == [] then [] else [Control(e, CMD_ACK, acks[0].0, acks[0].1)] + AckSegments(e, acks[1..])
  }

  function Probes(e: Endpoint, ask: bool, tell: bool, sn: U32, ts: U32): seq<Segment> {
    (if ask then [Control(e, CMD_WASK, sn, ts)] else []) + (if tell then [Control(e, CMD_WINS, sn, ts)] else [])
  }

  // The number and time of the last acknowledgement, which a probe repeats.
  function LastAck(acks: seq<(U32, U32)>): (U32, U32) {
    if acks == [] then (0, 0) else acks[|acks| - 1]
  }

  function ProbeSegments(e: Endpoint, env: FlushEnv): seq<Segment> {
    Probes(e, env.ask, env.tell, LastAck(e.acks).0, LastAck(e.acks).1)
  }

  function Number(e: Endpoint, env: FlushEnv, p: Piece): Flight {
    Flight(Segment(e.conv, CMD_PUSH, p.frg, Unused(e), env.current, e.sndNxt, e.rcvNxt, p.data), env.current, env.rto, 0, 0)
  }

  // Numbers queued pieces while the window has room.
  function NumberAll(e: Endpoint, env: FlushEnv): Endpoint
    decreases |e.sndQueue|
  {
    if TimeDiff(e.sndNxt, (e.sndUna + env.cwnd) % WORD) < 0 && e.sndQueue != [] then
      NumberAll(e.(sndQueue := e.sndQueue[1..], sndBuf := e.sndBuf + [Number(e, env, e.sndQueue[0])],
                   sndNxt := (e.sndNxt + 1) % WORD), env)
    else e
  }

  datatype Cause = First | Timeout | Skipped | Wait

  function Due(f: Flight, env: FlushEnv): Cause {
    if f.xmit == 0 then First
    else if TimeDiff(env.current, f.resendts) >= 0 then Timeout
    else if f.fastack >= env.resent then Skipped
    else Wait
  }

  function Transmitted(e: Endpoint, f: Flight, env: FlushEnv): Flight {
    var seg := f.seg.(ts := env.current, wnd := Unused(e), una := e.rcvNxt);
    var xmit := (f.xmit + 1) % WORD;
    match Due(f, env)
    case First => Flight(seg, (env.current + env.rto + env.rtomin) % WORD, env.rto, f.fastack, xmit)
    case Timeout =>
      var rto := (f.rto + if env.nodelay then env.rto / 2 else env.rto) % WORD;
      Flight(seg, (env.current + rto) % WORD, rto, f.fastack, xmit)
    case Skipped => Flight(seg, (env.current + f.rto) % WORD, f.rto, 0, xmit)
    case Wait => f
  }

  function TransmitAll(e: Endpoint, buf: seq<Flight>, env: FlushEnv): seq<Flight> {
    if buf == [] then [] else [Transmitted(e, buf[0], env)] + TransmitAll(e, buf[1..], env)
  }

  function DataSegments(e: Endpoint, buf: seq<Flight>, env: FlushEnv): seq<Segment> {
    if buf == [] then []
    else (if Due(buf[0], env) == Wait then [] else [Transmitted(e, buf[0], env).seg]) + DataSegments(e, buf[1..], env)
  }

  datatype Flushed = Flushed(endpoint: Endpoint, segments: seq<Segment>)

  // The state after a flush, and the segments it sends.
  function Flush(e: Endpoint, env: FlushEnv): Flushed {
    var e1 := NumberAll(e.(acks := []), env);
    Flushed(e1.(sndBuf := TransmitAll(e1, e1.sndBuf, env)),
            AckSegments(e, e.acks) + ProbeSegments(e, env) + DataSegments(e1, e1.sndBuf, env))
  }

  // Segments share a datagram until the next one would exceed `mtu` bytes.
  function Group(pending: seq<Segment>, segments: seq<Segment>, mtu: nat): seq<seq<Segment>>
    decreases |segments|
  {
    if segments == [] then (if pending == [] then [] else [pending])
    else if |Encode(pending)| + OVERHEAD + |segments[0].data| > mtu then
      (if pending == [] then [] else [pending]) + Group([segments[0]], segments[1..], mtu)
    else Group(pending + [segments[0]], segments[1..], mtu)
  }
}
