// Two KCP endpoints and a network that may lose, duplicate, reorder and delay datagrams.

module KcpProtocol {
  import opened Words
  import opened KcpWire
  import opened KcpSpec

  type Message = seq<Byte>
  type Packet = seq<Segment>

  // Sequence numbers stay below 2^31, so that comparing them by 32-bit difference is exact.
  const LIMIT: int := 0x8000_0000

  // ---- the stream of pieces one side has accepted ----

  function PiecesOf(message: Message, mss: nat): seq<Piece>
    requires mss > 0 && PieceCount(|message|, mss) <= 255
  {
    Split(message, mss, PieceCount(|message|, mss))
  }

  predicate Acceptable(messages: seq<Message>, mss: nat) {
    mss > 0 && forall m <- messages :: PieceCount(|m|, mss) <= 255
  }

  function Pieces(messages: seq<Message>, mss: nat): seq<Piece>
    requires Acceptable(messages, mss)
  {
    if messages == [] then []
    else Pieces(messages[..|messages| - 1], mss) + PiecesOf(messages[|messages| - 1], mss)
  }

  // ---- one direction: `x` sends the stream `f` to `y` ----

  function PieceOf(s: Segment): Piece {
    Piece(s.frg, s.data)
  }

  ghost predicate Ascending(buf: seq<Segment>) {
    forall i, j | 0 <= i < j < |buf| :: buf[i].sn < buf[j].sn
  }

  ghost predicate AscendingFlights(buf: seq<Flight>) {
    forall i, j | 0 <= i < j < |buf| :: buf[i].seg.sn < buf[j].seg.sn
  }

  // A numbered segment of the stream `f` of which `n` pieces are numbered.
  ghost predicate Genuine(s: Segment, f: seq<Piece>, n: int) {
    s.sn < n <= |f| && PieceOf(s) == f[s.sn]
  }

  // The sender's half: what it has not yet numbered is the rest of the stream, and its
  // retransmission buffer is strictly ordered within its window.
  ghost predicate Sending(x: Endpoint, f: seq<Piece>) {
    && x.sndUna <= x.sndNxt <= |f| < LIMIT && x.sndQueue == f[x.sndNxt..]
    && AscendingFlights(x.sndBuf)
    && forall g <- x.sndBuf :: x.sndUna <= g.seg.sn && FlightOK(g, x, f)
  }

  ghost predicate FlightOK(g: Flight, x: Endpoint, f: seq<Piece>) {
    Genuine(g.seg, f, x.sndNxt) && g.seg.conv == x.conv && g.seg.cmd == CMD_PUSH
  }

  // `y` holds piece `sn` or has already passed it on.
  ghost predicate Has(y: Endpoint, sn: int) {
    sn < y.rcvNxt || exists s <- y.rcvBuf :: s.sn == sn
  }

  // The receiver's half, of whose pieces the first `d` have been delivered: the receive queue
  // is the next stretch of the stream, and the reordering buffer is strictly ordered within
  // the receive window.
  ghost predicate Receiving(y: Endpoint, f: seq<Piece>, n: int, d: nat) {
    && d <= y.rcvNxt <= n <= |f| < LIMIT && y.rcvWnd < LIMIT
    && |y.rcvQueue| == y.rcvNxt - d <= y.rcvWnd
    && (forall i | 0 <= i < |y.rcvQueue| :: PieceOf(y.rcvQueue[i]) == f[d + i])
    && Ascending(y.rcvBuf)
    && (forall s <- y.rcvBuf :: y.rcvNxt <= s.sn < y.rcvNxt + y.rcvWnd && Genuine(s, f, n))
  }

  // Only what has arrived is acknowledged.
  ghost predicate Acknowledging(y: Endpoint) {
    forall a <- y.acks :: Has(y, a.0)
  }

  // Nothing is lost: a numbered piece is still in the sender's buffer or with the receiver.
  ghost predicate NothingLost(x: Endpoint, y: Endpoint) {
    forall sn | 0 <= sn < x.sndNxt :: InBuffer(x, sn) || Has(y, sn)
  }

  ghost predicate InBuffer(x: Endpoint, sn: int) {
    exists g <- x.sndBuf :: g.seg.sn == sn
  }

  // What the network carries from `x` to `y`, and back, about this direction.
  ghost predicate Carries(fwd: set<Packet>, f: seq<Piece>, n: int) {
    forall p <- fwd, s <- p :: s.cmd == CMD_PUSH ==> Genuine(s, f, n)
  }

  ghost predicate Reports(bwd: set<Packet>, y: Endpoint) {
    forall p <- bwd, s <- p :: s.una <= y.rcvNxt && (s.cmd == CMD_ACK ==> Has(y, s.sn))
  }

  ghost predicate Direction(x: Endpoint, y: Endpoint, f: seq<Piece>, d: nat, fwd: set<Packet>, bwd: set<Packet>) {
    && Sending(x, f) && Receiving(y, f, x.sndNxt, d) && Acknowledging(y) && NothingLost(x, y)
    && Carries(fwd, f, x.sndNxt) && Reports(bwd, y)
  }

  // ---- the pieces of messages ----

  lemma {:induction false} SplitFacts(message: seq<Byte>, mss: nat, count: nat)
    requires 0 < count <= 0x100 && (count - 1) * mss <= |message|
    ensures |Split(message, mss, count)| == count
    ensures forall i | 0 <= i < count :: Split(message, mss, count)[i].frg as int == count - 1 - i
    decreases count
  {
    if count > 1 {
      assert (count - 1) * mss == (count - 2) * mss + mss;
      SplitFacts(message[mss..], mss, count - 1);
    }
  }

  // A queue that starts with the pieces of a message yields that message, whole.
  lemma {:induction false} JoinSplit(queue: seq<Segment>, message: seq<Byte>, mss: nat, count: nat)
    requires 0 < count <= 0x100 && (count - 1) * mss <= |message|
    requires |queue| >= count && forall i | 0 <= i < count :: PieceOf(queue[i]) == Split(message, mss, count)[i]
    ensures HeadCount(queue) == count && Joined(queue[..count]) == message
    decreases count
  {
    var pieces := Split(message, mss, count);
    assert PieceOf(queue[0]) == pieces[0];
    assert queue[..count][1..] == queue[1..][..count - 1];
    if count > 1 {
      assert (count - 1) * mss == (count - 2) * mss + mss;
      var rest := Split(message[mss..], mss, count - 1);
      assert pieces == [Piece((count - 1) as Byte, message[..mss])] + rest;
      forall i | 0 <= i < count - 1
        ensures PieceOf(queue[1..][i]) == rest[i]
      {
        assert PieceOf(queue[i + 1]) == pieces[i + 1];
      }
      JoinSplit(queue[1..], message[mss..], mss, count - 1);
      assert message == message[..mss] + message[mss..];
    }
  }

  // ---- the receiver's half ----

  ghost predicate Grows(y: Endpoint, y': Endpoint) {
    y.rcvNxt <= y'.rcvNxt && forall sn | Has(y, sn) :: Has(y', sn)
  }

  predicate SameSender(e: Endpoint, e': Endpoint) {
    && e'.conv == e.conv && e'.mss == e.mss && e'.rcvWnd == e.rcvWnd
    && e'.sndUna == e.sndUna && e'.sndNxt == e.sndNxt && e'.sndQueue == e.sndQueue && e'.sndBuf == e.sndBuf
  }

  predicate SameReceiver(e: Endpoint, e': Endpoint) {
    && e'.conv == e.conv && e'.mss == e.mss && e'.rcvWnd == e.rcvWnd
    && e'.rcvNxt == e.rcvNxt && e'.rcvBuf == e.rcvBuf && e'.rcvQueue == e.rcvQueue
  }

  lemma {:induction false} AdvanceKeeps(y: Endpoint, f: seq<Piece>, n: int, d: nat)
    requires Receiving(y, f, n, d)
    ensures Receiving(Advance(y), f, n, d) && Grows(y, Advance(y))
    ensures SameSender(y, Advance(y)) && Advance(y).acks == y.acks
    decreases |y.rcvBuf|
  {
    if y.rcvBuf != [] && y.rcvBuf[0].sn == y.rcvNxt && |y.rcvQueue| < y.rcvWnd {
      AdvanceOne(y, f, n, d);
      AdvanceKeeps(y.(rcvNxt := (y.rcvNxt + 1) % WORD, rcvBuf := y.rcvBuf[1..], rcvQueue := y.rcvQueue + [y.rcvBuf[0]]), f, n, d);
    }
  }

  lemma TailAscends(buf: seq<Segment>)
    requires Ascending(buf) && buf != []
    ensures Ascending(buf[1..]) && buf[0] in buf && forall s <- buf[1..] :: s in buf && buf[0].sn < s.sn
  {
  }

  lemma AdvanceOne(y: Endpoint, f: seq<Piece>, n: int, d: nat)
    requires Receiving(y, f, n, d) && y.rcvBuf != [] && y.rcvBuf[0].sn == y.rcvNxt && |y.rcvQueue| < y.rcvWnd
    ensures var y' := y.(rcvNxt := (y.rcvNxt + 1) % WORD, rcvBuf := y.rcvBuf[1..], rcvQueue := y.rcvQueue + [y.rcvBuf[0]]);
      Receiving(y', f, n, d) && Grows(y, y')
  {
    hide Ascending;
    var y' := y.(rcvNxt := (y.rcvNxt + 1) % WORD, rcvBuf := y.rcvBuf[1..], rcvQueue := y.rcvQueue + [y.rcvBuf[0]]);
    TailAscends(y.rcvBuf);
    forall sn | Has(y, sn)
      ensures Has(y', sn)
    {
      if sn >= y.rcvNxt {
        var s :| s in y.rcvBuf && s.sn == sn;
        assert s == y.rcvBuf[0] || s in y'.rcvBuf;
      }
    }
  }

  // A new segment finds its place; a repeated one changes nothing.
  lemma {:induction false} InsertKeeps(buf: seq<Segment>, s: Segment)
    requires Ascending(buf) && s.sn < LIMIT && forall b <- buf :: b.sn < LIMIT
    ensures Ascending(Insert(buf, s))
    ensures forall b <- Insert(buf, s) :: b in buf || b == s
    ensures forall b <- buf :: b in Insert(buf, s)
    ensures exists b <- Insert(buf, s) :: b.sn == s.sn
  {
    hide TimeDiff;
    if buf == [] {
      assert s in Insert(buf, s);
    } else {
      var last := buf[|buf| - 1];
      assert last in buf;
      TimeDiffExact(s.sn, last.sn);
      if last.sn == s.sn {
      } else if s.sn > last.sn {
        assert s in Insert(buf, s);
      } else {
        var front := buf[..|buf| - 1];
        assert buf == front + [last];
        InsertKeeps(front, s);
        AppendKeeps(front, Insert(front, s), last, s);
      }
    }
  }

  lemma AppendKeeps(front: seq<Segment>, r: seq<Segment>, last: Segment, s: Segment)
    requires Ascending(front + [last]) && Ascending(r) && s.sn < last.sn
    requires forall b <- r :: b in front || b == s
    requires forall b <- front :: b in r
    requires exists b <- r :: b.sn == s.sn
    ensures Ascending(r + [last])
    ensures forall b <- r + [last] :: b in front + [last] || b == s
    ensures forall b <- front + [last] :: b in r + [last]
    ensures exists b <- r + [last] :: b.sn == s.sn
  {
    forall i | 0 <= i < |r|
      ensures r[i].sn < last.sn
    {
      if r[i] != s {
        assert r[i] in r;
        var j :| 0 <= j < |front| && front[j] == r[i];
        assert (front + [last])[j].sn < (front + [last])[|front|].sn;
      }
    }
    var b :| b in r && b.sn == s.sn;
    assert b in r + [last];
  }

  lemma ParseDataKeeps(y: Endpoint, s: Segment, f: seq<Piece>, n: int, d: nat)
    requires Receiving(y, f, n, d) && Genuine(s, f, n)
    ensures Receiving(ParseData(y, s), f, n, d) && Grows(y, ParseData(y, s))
    ensures SameSender(y, ParseData(y, s)) && ParseData(y, s).acks == y.acks
    ensures TimeDiff(s.sn, (y.rcvNxt + y.rcvWnd) % WORD) < 0 ==> Has(ParseData(y, s), s.sn)
  {
    hide TimeDiff, Insert, Advance;
    WindowExact(y, s.sn);
    if y.rcvNxt <= s.sn < y.rcvNxt + y.rcvWnd {
      var y' := y.(rcvBuf := Insert(y.rcvBuf, s));
      InsertReceiving(y, s, f, n, d);
      AdvanceKeeps(y', f, n, d);
    }
  }

  // Both comparisons with the receive window are exact for numbers that are not old.
  lemma WindowExact(y: Endpoint, sn: U32)
    requires sn < LIMIT && y.rcvNxt < LIMIT && y.rcvWnd < LIMIT
    ensures TimeDiff(sn, y.rcvNxt) >= 0 <==> sn >= y.rcvNxt
    ensures sn >= y.rcvNxt ==> (TimeDiff(sn, (y.rcvNxt + y.rcvWnd) % WORD) < 0 <==> sn < y.rcvNxt + y.rcvWnd)
  {
    TimeDiffExact(sn, y.rcvNxt);
    if sn >= y.rcvNxt {
      TimeDiffExact(sn, y.rcvNxt + y.rcvWnd);
    }
  }

  lemma InsertReceiving(y: Endpoint, s: Segment, f: seq<Piece>, n: int, d: nat)
    requires Receiving(y, f, n, d) && Genuine(s, f, n) && y.rcvNxt <= s.sn < y.rcvNxt + y.rcvWnd
    ensures var y' := y.(rcvBuf := Insert(y.rcvBuf, s)); Receiving(y', f, n, d) && Grows(y, y') && Has(y', s.sn)
  {
    hide Insert;
    InsertKeeps(y.rcvBuf, s);
  }

  // ---- the sender's half ----

  // What is left of a buffer after acknowledgements: in order, and without a number only if
  // the receiver has it.
  ghost predicate Thinned(buf: seq<Flight>, buf': seq<Flight>, y: Endpoint) {
    && AscendingFlights(buf')
    && (forall g <- buf' :: g in buf)
    && (forall g <- buf :: g in buf' || Has(y, g.seg.sn))
  }

  lemma {:induction false} DropThins(buf: seq<Flight>, una: U32, y: Endpoint)
    requires AscendingFlights(buf) && una <= y.rcvNxt < LIMIT && forall g <- buf :: g.seg.sn < LIMIT
    ensures Thinned(buf, DropAcknowledged(buf, una), y)
  {
    hide TimeDiff;
    if buf != [] {
      assert buf[0] in buf;
      TimeDiffExact(una, buf[0].seg.sn);
      if una > buf[0].seg.sn {
        DropThins(buf[1..], una, y);
      }
    }
  }

  lemma {:induction false} RemoveThins(buf: seq<Flight>, sn: U32, y: Endpoint)
    requires AscendingFlights(buf) && sn < LIMIT && Has(y, sn) && forall g <- buf :: g.seg.sn < LIMIT
    ensures Thinned(buf, Remove(buf, sn), y)
  {
    hide TimeDiff, Has;
    if buf != [] && sn != buf[0].seg.sn && TimeDiff(sn, buf[0].seg.sn) >= 0 {
      RemoveThins(buf[1..], sn, y);
      PrependThins(buf, Remove(buf[1..], sn), y);
    }
  }

  lemma PrependThins(buf: seq<Flight>, r: seq<Flight>, y: Endpoint)
    requires buf != [] && AscendingFlights(buf) && Thinned(buf[1..], r, y)
    ensures Thinned(buf, [buf[0]] + r, y)
  {
    hide Has;
    forall i | 0 <= i < |r|
      ensures buf[0].seg.sn < r[i].seg.sn
    {
      assert r[i] in r;
      var j :| 0 <= j < |buf[1..]| && buf[1..][j] == r[i];
      assert buf[0].seg.sn < buf[j + 1].seg.sn;
    }
  }

  // Acknowledging keeps the sender's half, and loses nothing.
  lemma ThinnedKeeps(x: Endpoint, buf: seq<Flight>, y: Endpoint, f: seq<Piece>)
    requires Sending(x, f) && NothingLost(x, y) && Thinned(x.sndBuf, buf, y)
    ensures var x' := x.(sndBuf := buf); Sending(x', f) && NothingLost(x', y) && Sending(Shrink(x'), f) && NothingLost(Shrink(x'), y)
  {
    var x' := x.(sndBuf := buf);
    forall sn | 0 <= sn < x.sndNxt
      ensures InBuffer(x', sn) || Has(y, sn)
    {
      if !Has(y, sn) {
        assert InBuffer(x, sn);
        var g :| g in x.sndBuf && g.seg.sn == sn;
        assert g in x'.sndBuf;
      }
    }
    forall sn | 0 <= sn < x.sndNxt
      ensures InBuffer(Shrink(x'), sn) || Has(y, sn)
    {
      if InBuffer(x', sn) {
        var g :| g in x'.sndBuf && g.seg.sn == sn;
        assert g in Shrink(x').sndBuf;
      }
    }
    if buf != [] {
      assert buf[0] in buf;
      forall g <- buf
        ensures buf[0].seg.sn <= g.seg.sn
      {
        var i :| 0 <= i < |buf| && buf[i] == g;
      }
    }
  }

  // ---- a datagram arrives ----

  lemma InputReceiver(y: Endpoint, s: Segment, f: seq<Piece>, n: int, d: nat)
    requires Receiving(y, f, n, d) && Acknowledging(y) && (s.cmd == CMD_PUSH ==> Genuine(s, f, n))
    ensures Receiving(InputSegment(y, s), f, n, d) && Acknowledging(InputSegment(y, s)) && Grows(y, InputSegment(y, s))
  {
    hide TimeDiff, ParseData, DropAcknowledged, ParseAck;
    if s.cmd == CMD_PUSH && TimeDiff(s.sn, (y.rcvNxt + y.rcvWnd) % WORD) < 0 {
      var e1 := Shrink(y.(sndBuf := DropAcknowledged(y.sndBuf, s.una)));
      var e2 := e1.(acks := e1.acks + [(s.sn, s.ts)]);
      WindowExact(y, s.sn);
      assert Receiving(e2, f, n, d);
      if TimeDiff(s.sn, y.rcvNxt) >= 0 {
        ParseDataKeeps(e2, s, f, n, d);
      }
      var y' := InputSegment(y, s);
      assert Has(y', s.sn);
      forall a <- y'.acks
        ensures Has(y', a.0)
      {
        assert a in y.acks || a == (s.sn, s.ts);
      }
    } else {
      ParseAckReceiver(y, s);
    }
  }

  lemma ParseAckReceiver(y: Endpoint, s: Segment)
    requires s.cmd != CMD_PUSH || TimeDiff(s.sn, (y.rcvNxt + y.rcvWnd) % WORD) >= 0
    ensures SameReceiver(y, InputSegment(y, s)) && InputSegment(y, s).acks == y.acks
  {
  }

  lemma InputSender(x: Endpoint, s: Segment, y: Endpoint, f: seq<Piece>, d: nat)
    requires Sending(x, f) && NothingLost(x, y) && Receiving(y, f, x.sndNxt, d)
    requires s.una <= y.rcvNxt && (s.cmd == CMD_ACK ==> Has(y, s.sn))
    ensures Sending(InputSegment(x, s), f) && NothingLost(InputSegment(x, s), y) && InputSegment(x, s).sndNxt == x.sndNxt
    ensures InputSegment(x, s).conv == x.conv && InputSegment(x, s).mss == x.mss
  {
    hide TimeDiff, Remove, DropAcknowledged, InFlight, Advance, Insert, Shrink;
    DropThins(x.sndBuf, s.una, y);
    ThinnedKeeps(x, DropAcknowledged(x.sndBuf, s.una), y, f);
    ShrinkFields(x.(sndBuf := DropAcknowledged(x.sndBuf, s.una)));
    var e1 := Shrink(x.(sndBuf := DropAcknowledged(x.sndBuf, s.una)));
    if s.cmd == CMD_ACK {
      if InFlight(e1, s.sn) {
        RemoveThins(e1.sndBuf, s.sn, y);
        ThinnedKeeps(e1, Remove(e1.sndBuf, s.sn), y, f);
      } else {
        ThinnedKeeps(e1, e1.sndBuf, y, f);
      }
      ShrinkFields(ParseAck(e1, s.sn));
    } else {
      var e2 := e1.(acks := e1.acks + [(s.sn, s.ts)]);
      ParseDataSender(e2, s);
      SendingDepends(e1, InputSegment(x, s), y, f);
    }
  }

  lemma ShrinkFields(e: Endpoint)
    ensures SameReceiver(e, Shrink(e)) && Shrink(e).acks == e.acks
    ensures Shrink(e).sndNxt == e.sndNxt && Shrink(e).sndBuf == e.sndBuf && Shrink(e).sndQueue == e.sndQueue
  {
  }

  lemma {:induction false} AdvanceSender(e: Endpoint)
    ensures SameSender(e, Advance(e)) && Advance(e).acks == e.acks
    decreases |e.rcvBuf|
  {
    if e.rcvBuf != [] && e.rcvBuf[0].sn == e.rcvNxt && |e.rcvQueue| < e.rcvWnd {
      AdvanceSender(e.(rcvNxt := (e.rcvNxt + 1) % WORD, rcvBuf := e.rcvBuf[1..], rcvQueue := e.rcvQueue + [e.rcvBuf[0]]));
    }
  }

  lemma ParseDataSender(e: Endpoint, s: Segment)
    ensures SameSender(e, ParseData(e, s))
  {
    AdvanceSender(e.(rcvBuf := Insert(e.rcvBuf, s)));
  }

  lemma SendingDepends(x: Endpoint, x': Endpoint, y: Endpoint, f: seq<Piece>)
    requires Sending(x, f) && NothingLost(x, y) && SameSender(x, x')
    ensures Sending(x', f) && NothingLost(x', y)
  {
    forall sn | 0 <= sn < x.sndNxt
      ensures InBuffer(x', sn) || Has(y, sn)
    {
      if InBuffer(x, sn) {
        var g :| g in x.sndBuf && g.seg.sn == sn;
        assert g in x'.sndBuf;
      }
    }
  }

  // All the segments of a packet, one after the other.
  function InputSegments(e: Endpoint, p: Packet): Endpoint
    decreases |p|
  {
    if p == [] then e else InputSegments(InputSegment(e, p[0]), p[1..])
  }

  function LatestAck(m: MaxAck, p: Packet): MaxAck
    decreases |p|
  {
    if p == [] then m else LatestAck(Later(m, p[0]), p[1..])
  }

  ghost predicate WellAddressed(p: Packet, conv: U32) {
    p != [] && Encodable(p) && forall s <- p :: s.conv == conv && KnownCommand(s.cmd)
  }

  // Parsing the bytes of a packet feeds its segments to the endpoint.
  lemma {:induction false} InputEncoded(e: Endpoint, p: Packet, m: MaxAck)
    requires Encodable(p) && forall s <- p :: s.conv == e.conv && KnownCommand(s.cmd)
    ensures InputFrom(e, Encode(p), m) == (FinishInput(InputSegments(e, p), LatestAck(m, p)), 0)
    decreases |p|
  {
    hide TimeDiff, EncodeHeader, DecodeHeader, InputSegment;
    if p != [] {
      var s, rest := p[0], Encode(p[1..]);
      assert s in p;
      var d := Encode(p);
      assert d == EncodeHeader(s) + (s.data + rest);
      HeaderInverse(s, s.data + rest);
      assert d[OVERHEAD..OVERHEAD + |s.data|] == s.data && d[OVERHEAD + |s.data|..] == rest;
      assert s.(data := []).(data := s.data) == s;
      KeepsConv(e, s);
      InputEncoded(InputSegment(e, s), p[1..], Later(m, s));
    }
  }

  lemma KeepsConv(e: Endpoint, s: Segment)
    ensures InputSegment(e, s).conv == e.conv && InputSegment(e, s).mss == e.mss && InputSegment(e, s).rcvWnd == e.rcvWnd
  {
    hide TimeDiff, Remove, DropAcknowledged, Insert;
    var e1 := Shrink(e.(sndBuf := DropAcknowledged(e.sndBuf, s.una)));
    ParseDataSender(e1.(acks := e1.acks + [(s.sn, s.ts)]), s);
  }

  lemma {:induction false} PacketReceiver(y: Endpoint, p: Packet, f: seq<Piece>, n: int, d: nat)
    requires Receiving(y, f, n, d) && Acknowledging(y) && forall s <- p :: s.cmd == CMD_PUSH ==> Genuine(s, f, n)
    ensures var y' := InputSegments(y, p); Receiving(y', f, n, d) && Acknowledging(y') && Grows(y, y')
    decreases |p|
  {
    hide InputSegment;
    if p != [] {
      InputReceiver(y, p[0], f, n, d);
      PacketReceiver(InputSegment(y, p[0]), p[1..], f, n, d);
    }
  }

  lemma {:induction false} PacketSender(x: Endpoint, p: Packet, y: Endpoint, f: seq<Piece>, d: nat)
    requires Sending(x, f) && NothingLost(x, y) && Receiving(y, f, x.sndNxt, d)
    requires forall s <- p :: s.una <= y.rcvNxt && (s.cmd == CMD_ACK ==> Has(y, s.sn))
    ensures var x' := InputSegments(x, p); Sending(x', f) && NothingLost(x', y) && x'.sndNxt == x.sndNxt && x'.mss == x.mss && x'.conv == x.conv
    decreases |p|
  {
    hide InputSegment;
    if p != [] {
      InputSender(x, p[0], y, f, d);
      PacketSender(InputSegment(x, p[0]), p[1..], y, f, d);
    }
  }

  // Counting skipped acknowledgements leaves the segments alone.
  lemma {:induction false} SkippedSame(buf: seq<Flight>, sn: U32)
    ensures |CountSkipped(buf, sn)| == |buf|
    ensures forall i | 0 <= i < |buf| :: CountSkipped(buf, sn)[i].seg == buf[i].seg
  {
    hide TimeDiff;
    if buf != [] && TimeDiff(sn, buf[0].seg.sn) >= 0 {
      SkippedSame(buf[1..], sn);
    }
  }

  // A buffer whose flights carry the same segments means the same to the protocol.
  lemma SameSegments(x: Endpoint, buf: seq<Flight>, y: Endpoint, f: seq<Piece>)
    requires Sending(x, f) && NothingLost(x, y) && |buf| == |x.sndBuf|
    requires forall i | 0 <= i < |buf| :: buf[i].seg.sn == x.sndBuf[i].seg.sn && PieceOf(buf[i].seg) == PieceOf(x.sndBuf[i].seg)
    requires forall i | 0 <= i < |buf| :: buf[i].seg.conv == x.sndBuf[i].seg.conv && buf[i].seg.cmd == x.sndBuf[i].seg.cmd
    ensures var x' := x.(sndBuf := buf); Sending(x', f) && NothingLost(x', y)
  {
    hide Has, Genuine, FlightOK;
    var x' := x.(sndBuf := buf);
    forall g <- buf
      ensures x.sndUna <= g.seg.sn && FlightOK(g, x', f)
    {
      var i :| 0 <= i < |buf| && buf[i] == g;
      assert x.sndBuf[i] in x.sndBuf;
      SameFlight(x.sndBuf[i], g, x, x', f);
    }
    SameNumbers(x, buf, y);
  }

  lemma SameFlight(g: Flight, g': Flight, x: Endpoint, x': Endpoint, f: seq<Piece>)
    requires FlightOK(g, x, f) && g'.seg.sn == g.seg.sn && PieceOf(g'.seg) == PieceOf(g.seg)
    requires g'.seg.conv == g.seg.conv && g'.seg.cmd == g.seg.cmd && x'.sndNxt == x.sndNxt && x'.conv == x.conv
    ensures FlightOK(g', x', f)
  {
  }

  lemma SameNumbers(x: Endpoint, buf: seq<Flight>, y: Endpoint)
    requires NothingLost(x, y) && |buf| == |x.sndBuf| && forall i | 0 <= i < |buf| :: buf[i].seg.sn == x.sndBuf[i].seg.sn
    ensures NothingLost(x.(sndBuf := buf), y)
  {
    hide Has;
    var x' := x.(sndBuf := buf);
    forall sn | 0 <= sn < x.sndNxt
      ensures InBuffer(x', sn) || Has(y, sn)
    {
      if InBuffer(x, sn) {
        var g :| g in x.sndBuf && g.seg.sn == sn;
        var i :| 0 <= i < |x.sndBuf| && x.sndBuf[i] == g;
        assert buf[i] in x'.sndBuf;
      }
    }
  }

  lemma FinishSender(x: Endpoint, m: MaxAck, y: Endpoint, f: seq<Piece>)
    requires Sending(x, f) && NothingLost(x, y)
    ensures var x' := FinishInput(x, m); Sending(x', f) && NothingLost(x', y) && x'.sndNxt == x.sndNxt
    ensures SameReceiver(x, FinishInput(x, m)) && FinishInput(x, m).acks == x.acks
  {
    hide TimeDiff, CountSkipped, InFlight;
    if m != NoAck {
      SkippedSame(x.sndBuf, m.sn);
      SameSegments(x, CountSkipped(x.sndBuf, m.sn), y, f);
    }
  }

  // ---- the network outlives the states ----

  lemma ReportsGrow(bwd: set<Packet>, y: Endpoint, y': Endpoint)
    requires Reports(bwd, y) && Grows(y, y')
    ensures Reports(bwd, y')
  {
  }

  lemma LostGrow(x: Endpoint, y: Endpoint, y': Endpoint)
    requires NothingLost(x, y) && Grows(y, y')
    ensures NothingLost(x, y')
  {
  }

  lemma StreamGrow(y: Endpoint, fwd: set<Packet>, f: seq<Piece>, f': seq<Piece>, n: int, n': int, d: nat)
    requires Receiving(y, f, n, d) && Carries(fwd, f, n) && n <= n' <= |f'| < LIMIT && f <= f'
    ensures Receiving(y, f', n', d) && Carries(fwd, f', n')
  {
  }

  // ---- a flush ----

  lemma {:induction false} NumberKeeps(x: Endpoint, env: FlushEnv, y: Endpoint, f: seq<Piece>)
    requires Sending(x, f) && NothingLost(x, y)
    ensures var x' := NumberAll(x, env);
      Sending(x', f) && NothingLost(x', y) && x.sndNxt <= x'.sndNxt && SameReceiver(x, x') && x'.acks == x.acks
    decreases |x.sndQueue|
  {
    hide TimeDiff;
    if TimeDiff(x.sndNxt, (x.sndUna + env.cwnd) % WORD) < 0 && x.sndQueue != [] {
      var x' := x.(sndQueue := x.sndQueue[1..], sndBuf := x.sndBuf + [Number(x, env, x.sndQueue[0])], sndNxt := (x.sndNxt + 1) % WORD);
      NumberOne(x, env, y, f);
      NumberKeeps(x', env, y, f);
    }
  }

  lemma NumberOne(x: Endpoint, env: FlushEnv, y: Endpoint, f: seq<Piece>)
    requires Sending(x, f) && NothingLost(x, y) && x.sndQueue != []
    ensures var x' := x.(sndQueue := x.sndQueue[1..], sndBuf := x.sndBuf + [Number(x, env, x.sndQueue[0])], sndNxt := (x.sndNxt + 1) % WORD);
      Sending(x', f) && NothingLost(x', y) && x'.sndNxt == x.sndNxt + 1
  {
    var g := Number(x, env, x.sndQueue[0]);
    var x' := x.(sndQueue := x.sndQueue[1..], sndBuf := x.sndBuf + [g], sndNxt := (x.sndNxt + 1) % WORD);
    assert x.sndQueue[0] == f[x.sndNxt];
    forall h <- x'.sndBuf
      ensures x.sndUna <= h.seg.sn && FlightOK(h, x', f)
    {
      assert h == g || h in x.sndBuf;
    }
    forall i | 0 <= i < |x.sndBuf|
      ensures x.sndBuf[i].seg.sn < g.seg.sn
    {
      assert x.sndBuf[i] in x.sndBuf;
    }
    forall sn | 0 <= sn < x'.sndNxt
      ensures InBuffer(x', sn) || Has(y, sn)
    {
      assert g in x'.sndBuf;
      if sn < x.sndNxt && InBuffer(x, sn) {
        var h :| h in x.sndBuf && h.seg.sn == sn;
        assert h in x'.sndBuf;
      }
    }
  }

  lemma {:induction false} TransmitSame(e: Endpoint, buf: seq<Flight>, env: FlushEnv)
    ensures |TransmitAll(e, buf, env)| == |buf|
    ensures forall i | 0 <= i < |buf| :: TransmitAll(e, buf, env)[i] == Transmitted(e, buf[i], env)
    ensures forall s <- DataSegments(e, buf, env) :: exists g <- buf :: s == Transmitted(e, g, env).seg && Due(g, env) != Wait
  {
    hide Transmitted, Due;
    if buf != [] {
      TransmitSame(e, buf[1..], env);
      forall s <- DataSegments(e, buf, env)
        ensures exists g <- buf :: s == Transmitted(e, g, env).seg && Due(g, env) != Wait
      {
        if s in DataSegments(e, buf[1..], env) {
          var g :| g in buf[1..] && s == Transmitted(e, g, env).seg && Due(g, env) != Wait;
          assert g in buf;
        } else {
          assert buf[0] in buf;
        }
      }
    }
  }

  lemma {:induction false} AcksSame(e: Endpoint, acks: seq<(U32, U32)>)
    ensures forall s <- AckSegments(e, acks) ::
              s.conv == e.conv && s.cmd == CMD_ACK && s.una == e.rcvNxt && s.data == [] && exists a <- acks :: s.sn == a.0
  {
    if acks != [] {
      AcksSame(e, acks[1..]);
      assert acks[0] in acks;
      assert forall a <- acks[1..] :: a in acks;
    }
  }

  // The segments of a flush: from the retransmission buffer, for what has arrived, or empty.
  lemma FlushSegments(x: Endpoint, env: FlushEnv, y: Endpoint, f: seq<Piece>)
    requires Sending(x, f) && NothingLost(x, y)
    ensures var r := Flush(x, env);
      && Sending(r.endpoint, f) && NothingLost(r.endpoint, y) && x.sndNxt <= r.endpoint.sndNxt
      && SameReceiver(x, r.endpoint) && r.endpoint.acks == []
      && forall s <- r.segments ::
           && s.conv == x.conv && KnownCommand(s.cmd) && s.una == x.rcvNxt
           && (s.cmd == CMD_PUSH ==> Genuine(s, f, r.endpoint.sndNxt))
           && (s.cmd != CMD_PUSH ==> s.data == [])
           && (s.cmd == CMD_ACK ==> exists a <- x.acks :: s.sn == a.0)
  {
    hide NumberAll, TransmitAll, DataSegments, AckSegments, Due;
    var x0 := x.(acks := []);
    SendingDepends(x, x0, y, f);
    NumberKeeps(x0, env, y, f);
    var e1 := NumberAll(x0, env);
    TransmitSame(e1, e1.sndBuf, env);
    SameSegments(e1, TransmitAll(e1, e1.sndBuf, env), y, f);
    AcksSame(x, x.acks);
  }
}
