// From wherever a run has got to, the messages that fit the other side's window can still be
// delivered: by flushes when a time is up, the arrival of what they send, and by taking the
// messages out.

module KcpLiveness {
  import opened Words
  import opened KcpWire
  import opened KcpSpec
  import opened KcpProtocol
  import opened KcpSystem
  import opened KcpRuns
  import opened KcpResend

  // Nothing is offered any more, and every flush is one of `env` but for its clock and whether
  // it tells the other side of its window.
  predicate Gentle(move: Move, env: FlushEnv) {
    match move.action
    case Offer(_) => false
    case Take(_) => true
    case Arrive(_) => true
    case Emit(e) => e == env.(current := e.current, tell := e.tell)
  }

  ghost predicate AllGentle(moves: seq<Move>, env: FlushEnv) {
    forall m <- moves :: Gentle(m, env)
  }

  lemma {:induction false} RunConcat(s: System, a: seq<Move>, b: seq<Move>)
    ensures Run(s, a + b) == Run(Run(s, a), b)
    decreases |b|
  {
    hide Step;
    if b == [] {
      assert a + b == a;
    } else {
      var n := |b| - 1;
      assert (a + b)[..|a + b| - 1] == a + b[..n] && (a + b)[|a + b| - 1] == b[n];
      RunConcat(s, a, b[..n]);
    }
  }

  lemma RunOne(s: System, move: Move)
    ensures Run(s, [move]) == Step(s, move)
  {
    assert [move][..0] == [];
  }

  // ---- what gentle moves keep ----

  ghost predicate Reachable(s: System) {
    Inv(s) && Settled(s.a.e) && Settled(s.b.e) && Young(s.a) && Young(s.b)
  }

  // The messages sent and the sizes of both sides.
  predicate SameGoal(s: System, s': System) {
    && s'.a.accepted == s.a.accepted && s'.b.accepted == s.b.accepted
    && s'.a.e.mss == s.a.e.mss && s'.b.e.mss == s.b.e.mss && s'.a.e.rcvWnd == s.a.e.rcvWnd && s'.b.e.rcvWnd == s.b.e.rcvWnd
  }

  lemma {:induction false} InputWindow(e: Endpoint, d: seq<Byte>, m: MaxAck)
    ensures InputFrom(e, d, m).0.rcvWnd == e.rcvWnd
    decreases |d|
  {
    hide InputSegment, DecodeHeader, Later;
    if |d| >= OVERHEAD {
      var (s, length) := DecodeHeader(d);
      if s.conv == e.conv && |d| - OVERHEAD >= length && KnownCommand(s.cmd) {
        var s' := s.(data := d[OVERHEAD..OVERHEAD + length]);
        KeepsConv(e, s');
        InputWindow(InputSegment(e, s'), d[OVERHEAD + length..], Later(m, s'));
      }
    }
  }

  lemma RecvWindow(e: Endpoint, length: int)
    ensures SameSender(e, Recv(e, length).endpoint)
  {
    AdvanceSender(e);
    AdvanceSender(e.(rcvQueue := e.rcvQueue[HeadCount(e.rcvQueue)..]));
  }

  lemma ActSame(s: System, action: Action)
    requires !action.Offer?
    ensures SameGoal(s, Act(s, action)) && Act(s, action).b == s.b
  {
    hide KcpSpec.Flush, Recv, Encode, Group, InputFrom;
    match action
    case Take(length) => RecvWindow(s.a.e, length);
    case Arrive(p) =>
      InputFromMss(s.a.e, Encode(p), NoAck);
      InputWindow(s.a.e, Encode(p), NoAck);
    case Emit(env) => FlushMss(s.a.e, env);
  }

  lemma StepReaches(s: System, move: Move, env: FlushEnv)
    requires Reachable(s) && Gentle(move, env)
    ensures Reachable(Step(s, move)) && SameGoal(s, Step(s, move))
  {
    hide Inv, Act, Settled;
    var s0 := if move.first then s else Swap(s);
    ActSame(s0, move.action);
    StepKeeps(s, move);
    ActSettles(s0, move.action);
  }

  // ---- which datagram carries a segment ----

  lemma {:induction false} FlattenedHas(packets: seq<Packet>, s: Segment) returns (p: Packet)
    requires s in Flattened(packets)
    ensures p in packets && s in p
  {
    if s in packets[0] {
      p := packets[0];
    } else {
      p := FlattenedHas(packets[1..], s);
    }
  }

  // What a flush sends is on its way in some datagram.
  lemma OnItsWay(x: Peer, y: Peer, env: FlushEnv, fwd: set<Packet>, bwd: set<Packet>, s: Segment) returns (p: Packet)
    requires Half(x, y, fwd, bwd) && s in Flush(x.e, env).segments
    ensures p in Sent(Flush(x.e, env)) && s in p
  {
    hide Half, Flush, Group, Encode;
    SegmentsFit(x, y, env, fwd, bwd);
    var r := Flush(x.e, env);
    EncodeNothing();
    GroupFacts([], r.segments, r.endpoint.mss + OVERHEAD);
    assert [] + r.segments == r.segments;
    p := FlattenedHas(Datagrams(r), s);
  }

  lemma SegmentsFit(x: Peer, y: Peer, env: FlushEnv, fwd: set<Packet>, bwd: set<Packet>)
    requires Half(x, y, fwd, bwd)
    ensures var r := Flush(x.e, env); r.endpoint.mss == x.e.mss && forall s <- r.segments :: Fits(s, r.endpoint.mss + OVERHEAD)
  {
    hide Pieces, Receiving, Acknowledging, NothingLost, Carries, Reports, Sending, Flush;
    var f := Pieces(x.accepted, x.e.mss);
    FlushSegments(x.e, env, y.e, f);
    PieceSizes(x.accepted, x.e.mss);
    var r := Flush(x.e, env);
    forall s <- r.segments
      ensures Fits(s, r.endpoint.mss + OVERHEAD)
    {
      if s.cmd == CMD_PUSH {
        assert f[s.sn] in f;
      }
    }
  }

  // ---- a piece arrives ----

  // The next piece, if it is in a datagram that arrives, is taken into the queue.
  lemma {:induction false} SegmentsBring(y: Endpoint, p: Packet, f: seq<Piece>, n: int, d: nat, sn: int)
    requires Receiving(y, f, n, d) && Acknowledging(y) && y.rcvWnd > 0 && sn <= y.rcvNxt
    requires (forall s <- p :: s.cmd == CMD_PUSH ==> Genuine(s, f, n)) && Sends(p, sn)
    ensures Has(InputSegments(y, p), sn)
    decreases |p|
  {
    hide InputSegment, Has, Receiving, Acknowledging;
    var s, y' := p[0], InputSegment(y, p[0]);
    InputReceiver(y, s, f, n, d);
    KeepsConv(y, s);
    PacketReceiver(y', p[1..], f, n, d);
    ReceivingLimit(y, f, n, d);
    if s.cmd == CMD_PUSH && s.sn == sn {
      SegmentBrings(y, s, f, n, d);
      GrowsHas(y', InputSegments(y', p[1..]), sn);
    } else {
      SendsRest(p, sn);
      ReceivingLimit(y', f, n, d);
      SegmentsBring(y', p[1..], f, n, d, sn);
    }
  }

  lemma SendsRest(p: Packet, sn: int)
    requires Sends(p, sn) && !(p[0].cmd == CMD_PUSH && p[0].sn == sn)
    ensures Sends(p[1..], sn)
  {
    var s :| s in p && s.cmd == CMD_PUSH && s.sn == sn;
    assert p == [p[0]] + p[1..];
    assert s in p[1..];
  }

  lemma GrowsHas(y: Endpoint, y': Endpoint, sn: int)
    requires Grows(y, y') && Has(y, sn)
    ensures Has(y', sn)
  {
  }

  lemma ReceivingLimit(y: Endpoint, f: seq<Piece>, n: int, d: nat)
    requires Receiving(y, f, n, d)
    ensures y.rcvNxt <= n <= |f| < LIMIT && y.rcvWnd < LIMIT && |y.rcvQueue| == y.rcvNxt - d
  {
  }

  lemma SegmentBrings(y: Endpoint, s: Segment, f: seq<Piece>, n: int, d: nat)
    requires Receiving(y, f, n, d) && y.rcvWnd > 0 && s.cmd == CMD_PUSH && Genuine(s, f, n) && s.sn <= y.rcvNxt
    ensures Has(InputSegment(y, s), s.sn)
  {
    hide TimeDiff, ParseData, DropAcknowledged, ParseAck, Receiving;
    ReceivingLimit(y, f, n, d);
    WindowExact(y, s.sn);
    if s.sn < y.rcvNxt {
      InputGrows(y, s, f, n, d);
    } else {
      var e1 := Shrink(y.(sndBuf := DropAcknowledged(y.sndBuf, s.una)));
      var e2 := e1.(acks := e1.acks + [(s.sn, s.ts)]);
      ReceivingSame(y, e2, f, n, d);
      ParseDataKeeps(e2, s, f, n, d);
    }
  }

  lemma ReceivingSame(y: Endpoint, y': Endpoint, f: seq<Piece>, n: int, d: nat)
    requires Receiving(y, f, n, d) && SameReceiver(y, y')
    ensures Receiving(y', f, n, d)
  {
  }

  lemma InputGrows(y: Endpoint, s: Segment, f: seq<Piece>, n: int, d: nat)
    requires Receiving(y, f, n, d) && Genuine(s, f, n) && s.cmd == CMD_PUSH && s.sn < y.rcvNxt
    ensures Has(InputSegment(y, s), s.sn)
  {
    hide TimeDiff, ParseData, DropAcknowledged, ParseAck, Acknowledging;
    var y0 := y.(acks := []);
    var e1 := Shrink(y.(sndBuf := DropAcknowledged(y.sndBuf, s.una)));
    var e2 := e1.(acks := e1.acks + [(s.sn, s.ts)]);
    ReceivingSame(y, e2, f, n, d);
    ParseDataKeeps(e2, s, f, n, d);
  }

  // A number that it has and that is next starts the buffer, so that a settled endpoint with
  // room in its queue has passed it.
  lemma PassedOn(y: Endpoint, f: seq<Piece>, n: int, d: nat, sn: int)
    requires Receiving(y, f, n, d) && Settled(y) && Has(y, sn) && d <= sn < d + y.rcvWnd && sn <= y.rcvNxt
    ensures y.rcvNxt > sn
  {
    if y.rcvNxt == sn {
      NextInBuffer(y, f, n, d);
    }
  }

  // ---- acknowledgements arrive ----

  lemma {:induction false} DropsAll(buf: seq<Flight>, una: U32)
    requires una < LIMIT && forall g <- buf :: g.seg.sn < una
    ensures DropAcknowledged(buf, una) == []
  {
    hide TimeDiff;
    if buf != [] {
      assert buf[0] in buf;
      TimeDiffExact(una, buf[0].seg.sn);
      DropsAll(buf[1..], una);
    }
  }

  // Nothing is in flight, and the window starts where the numbers end.
  predicate Cleared(x: Endpoint) {
    x.sndBuf == [] && x.sndUna == x.sndNxt
  }

  lemma SegmentClears(x: Endpoint, s: Segment)
    requires s.una == x.sndNxt < LIMIT && forall g <- x.sndBuf :: g.seg.sn < x.sndNxt
    ensures var x' := InputSegment(x, s); Cleared(x') && x'.sndNxt == x.sndNxt && x'.sndQueue == x.sndQueue
  {
    hide TimeDiff, DropAcknowledged, Advance, Insert;
    DropsAll(x.sndBuf, s.una);
    var e1 := Shrink(x.(sndBuf := DropAcknowledged(x.sndBuf, s.una)));
    ParseDataSender(e1.(acks := e1.acks + [(s.sn, s.ts)]), s);
  }

  lemma {:induction false} PacketClears(x: Endpoint, p: Packet)
    requires p != [] && x.sndNxt < LIMIT && (forall s <- p :: s.una == x.sndNxt) && forall g <- x.sndBuf :: g.seg.sn < x.sndNxt
    ensures var x' := InputSegments(x, p); Cleared(x') && x'.sndNxt == x.sndNxt && x'.sndQueue == x.sndQueue
    decreases |p|
  {
    hide InputSegment;
    var x1 := InputSegment(x, p[0]);
    assert p[0] in p;
    SegmentClears(x, p[0]);
    if |p| > 1 {
      PacketClears(x1, p[1..]);
    }
  }

  lemma FinishClears(x: Endpoint, m: MaxAck)
    requires Cleared(x)
    ensures Cleared(FinishInput(x, m)) && FinishInput(x, m).sndNxt == x.sndNxt && FinishInput(x, m).sndQueue == x.sndQueue
  {
  }

  lemma TellsWindow(e: Endpoint, env: FlushEnv) returns (s: Segment)
    requires env.tell
    ensures s in Flush(e, env).segments
  {
    var last := LastAck(e.acks);
    s := Control(e, CMD_WINS, last.0, last.1);
    assert s in ProbeSegments(e, env);
  }

  // The numbers of what is in flight.
  lemma FlightNumbers(x: Peer, y: Peer, fwd: set<Packet>, bwd: set<Packet>)
    requires Half(x, y, fwd, bwd)
    ensures x.e.sndUna <= x.e.sndNxt < LIMIT && forall g <- x.e.sndBuf :: g.seg.sn < x.e.sndNxt
    ensures x.e.sndNxt + |x.e.sndQueue| == |Pieces(x.accepted, x.e.mss)| < LIMIT
    ensures Sending(x.e, Pieces(x.accepted, x.e.mss))
  {
    hide Pieces, Receiving, Acknowledging, NothingLost, Carries, Reports;
    var f := Pieces(x.accepted, x.e.mss);
    assert Sending(x.e, f);
  }

  // Once the other side has everything that is numbered, it can say so.
  lemma Clears(s: System, env: FlushEnv) returns (moves: seq<Move>)
    requires Reachable(s) && s.b.e.rcvNxt == s.a.e.sndNxt
    ensures AllGentle(moves, env)
    ensures var s' := Run(s, moves);
      && Reachable(s') && SameGoal(s, s') && s'.b.delivered == s.b.delivered && s'.b.e.rcvNxt == s.b.e.rcvNxt && s'.b.e.rcvQueue == s.b.e.rcvQueue
      && Cleared(s'.a.e) && s'.a.e.sndNxt == s.a.e.sndNxt
  {
    hide Half, Settled, Young, Flush, Input, Encode, InputSegments, FinishInput, WellAddressed, Sent;
    var env1 := env.(current := 0, tell := true);
    var move1 := Move(false, Emit(env1));
    var seg := TellsWindow(s.b.e, env1);
    var p := OnItsWay(s.b, s.a, env1, s.ba, s.ab, seg);
    EmitPackets(s.b, s.a, env1, s.ba, s.ab);
    StepReaches(s, move1, env);
    var s1 := Step(s, move1);
    var move2 := Move(true, Arrive(p));
    assert p in s1.ba && s1.a == s.a;
    FlightNumbers(s.a, s.b, s.ab, s.ba);
    SentInDatagrams(Flush(s.b.e, env1), p);
    PacketParts(p, s.a.e.conv);
    ArriveSegments(s.a.e, p);
    PacketClears(s.a.e, p);
    FinishClears(InputSegments(s.a.e, p), LatestAck(NoAck, p));
    StepReaches(s1, move2, env);
    moves := [move1] + [move2];
    RunOne(s, move1);
    RunConcat(s, [move1], [move2]);
    RunOne(s1, move2);
  }

  lemma SentInDatagrams(r: Flushed, p: Packet)
    requires p in Sent(r)
    ensures p in Datagrams(r)
  {
  }

  lemma PacketParts(p: Packet, conv: U32)
    requires WellAddressed(p, conv)
    ensures p != []
  {
  }

  // ---- the next piece ----

  // What makes the next piece go out: the time of its flight, or room in the window.
  lemma Clock(x: Endpoint, y: Endpoint, f: seq<Piece>, d: nat, env: FlushEnv) returns (t: U32)
    requires Sending(x, f) && Receiving(y, f, x.sndNxt, d) && NothingLost(x, y) && Settled(y) && |y.rcvQueue| < y.rcvWnd
    requires y.rcvNxt < |f| && 0 < env.cwnd < LIMIT && (y.rcvNxt < x.sndNxt || (Cleared(x) && x.sndNxt == y.rcvNxt))
    ensures Sends(Flush(x, env.(current := t)).segments, y.rcvNxt)
  {
    hide Flush, Sends, AnyDue, IsDue, Has;
    var sn := y.rcvNxt;
    SendingNumbers(x, f);
    if sn < x.sndNxt {
      NotYet(y, f, x.sndNxt, d);
      assert InBuffer(x, sn);
      var g :| g in x.sndBuf && g.seg.sn == sn;
      t := g.resendts;
      DueNow(x.sndBuf, g, env.(current := t));
    } else {
      t := 0;
      FlushNumbers(x, env.(current := t));
    }
    FlushSendsExactly(x, env.(current := t), f, sn);
  }

  lemma NotYet(y: Endpoint, f: seq<Piece>, n: int, d: nat)
    requires Receiving(y, f, n, d) && Settled(y) && |y.rcvQueue| < y.rcvWnd
    ensures !Has(y, y.rcvNxt)
  {
    if Has(y, y.rcvNxt) {
      NextInBuffer(y, f, n, d);
    }
  }

  lemma DueNow(buf: seq<Flight>, g: Flight, env: FlushEnv)
    requires g in buf && env.current == g.resendts
    ensures AnyDue(buf, env, g.seg.sn)
  {
    assert IsDue(g, env);
  }

  lemma FlushNumbers(x: Endpoint, env: FlushEnv)
    requires Cleared(x) && x.sndNxt + |x.sndQueue| < LIMIT && x.sndQueue != [] && 0 < env.cwnd < LIMIT
    ensures x.sndNxt < Flush(x, env).endpoint.sndNxt
  {
    hide NumberAll, TransmitAll, DataSegments;
    NumbersMany(x.(acks := []), env);
  }

  // The next piece is sent.
  lemma GoesOut(s: System, env: FlushEnv) returns (move: Move, p: Packet)
    requires Reachable(s) && 0 < env.cwnd < LIMIT && |s.b.e.rcvQueue| < s.b.e.rcvWnd
    requires Acceptable(s.a.accepted, s.a.e.mss) && s.b.e.rcvNxt < |Pieces(s.a.accepted, s.a.e.mss)|
    requires s.b.e.rcvNxt < s.a.e.sndNxt || (Cleared(s.a.e) && s.a.e.sndNxt == s.b.e.rcvNxt)
    ensures Gentle(move, env)
    ensures var s' := Step(s, move);
      && Reachable(s') && SameGoal(s, s') && s'.b == s.b && p in s'.ab && WellAddressed(p, s.b.e.conv) && Sends(p, s.b.e.rcvNxt)
      && forall x <- p :: x.cmd == CMD_PUSH ==> Genuine(x, Pieces(s.a.accepted, s.a.e.mss), s'.a.e.sndNxt)
  {
    hide Half, Settled, Young, Flush, Input, Encode, WellAddressed, Sent, Sends, Genuine, Pieces, Has, Sending, Receiving, NothingLost, Acknowledging;
    var sn, f := s.b.e.rcvNxt, Pieces(s.a.accepted, s.a.e.mss);
    HalfParts(s.a, s.b, s.ab, s.ba);
    var t := Clock(s.a.e, s.b.e, f, |Pieces(s.b.delivered, s.a.e.mss)|, env);
    var env1 := env.(current := t);
    move := Move(true, Emit(env1));
    var seg := SomeSent(Flush(s.a.e, env1).segments, sn);
    p := OnItsWay(s.a, s.b, env1, s.ab, s.ba, seg);
    EmitPackets(s.a, s.b, env1, s.ab, s.ba);
    StepReaches(s, move, env);
    SentInDatagrams(Flush(s.a.e, env1), p);
    SendsHere(p, seg);
  }

  // It arrives and is taken into the queue.
  lemma ComesIn(s: System, p: Packet, env: FlushEnv)
    requires Reachable(s) && |s.b.e.rcvQueue| < s.b.e.rcvWnd && Acceptable(s.a.accepted, s.a.e.mss)
    requires p in s.ab && WellAddressed(p, s.b.e.conv) && Sends(p, s.b.e.rcvNxt)
    requires forall x <- p :: x.cmd == CMD_PUSH ==> Genuine(x, Pieces(s.a.accepted, s.a.e.mss), s.a.e.sndNxt)
    ensures var s' := Step(s, Move(false, Arrive(p)));
      Reachable(s') && SameGoal(s, s') && s'.b.delivered == s.b.delivered && s.b.e.rcvNxt < s'.b.e.rcvNxt
  {
    hide Half, Settled, Young, Input, Encode, InputSegments, FinishInput, WellAddressed, Sends, Genuine, Pieces, Has, Sending, Receiving, Grows,
      NothingLost, Acknowledging;
    var sn, f := s.b.e.rcvNxt, Pieces(s.a.accepted, s.a.e.mss);
    HalfParts(s.a, s.b, s.ab, s.ba);
    var d := |Pieces(s.b.delivered, s.a.e.mss)|;
    var move := Move(false, Arrive(p));
    StepReaches(s, move, env);
    ArriveSegments(s.b.e, p);
    SegmentsBring(s.b.e, p, f, s.a.e.sndNxt, d, sn);
    var y := InputSegments(s.b.e, p);
    PacketReceiver(s.b.e, p, f, s.a.e.sndNxt, d);
    GrowsNext(s.b.e, y);
    FinishReceiver(y, LatestAck(NoAck, p));
    HasSame(y, FinishInput(y, LatestAck(NoAck, p)));
    var s' := Step(s, move);
    HalfParts(s'.a, s'.b, s'.ab, s'.ba);
    PassedOn(s'.b.e, f, s'.a.e.sndNxt, d, sn);
  }

  lemma SendsNext(s: System, env: FlushEnv) returns (moves: seq<Move>)
    requires Reachable(s) && 0 < env.cwnd < LIMIT && |s.b.e.rcvQueue| < s.b.e.rcvWnd
    requires Acceptable(s.a.accepted, s.a.e.mss) && s.b.e.rcvNxt < |Pieces(s.a.accepted, s.a.e.mss)|
    requires s.b.e.rcvNxt < s.a.e.sndNxt || (Cleared(s.a.e) && s.a.e.sndNxt == s.b.e.rcvNxt)
    ensures AllGentle(moves, env)
    ensures var s' := Run(s, moves);
      Reachable(s') && SameGoal(s, s') && s'.b.delivered == s.b.delivered && s.b.e.rcvNxt < s'.b.e.rcvNxt
  {
    hide Reachable, Run, Step, WellAddressed, Sends, Genuine, Pieces;
    var move, p := GoesOut(s, env);
    ComesIn(Step(s, move), p, env);
    moves := [move] + [Move(false, Arrive(p))];
    RunOne(s, move);
    RunConcat(s, [move], [Move(false, Arrive(p))]);
    RunOne(Step(s, move), Move(false, Arrive(p)));
  }

  lemma HalfParts(x: Peer, y: Peer, fwd: set<Packet>, bwd: set<Packet>)
    requires Half(x, y, fwd, bwd)
    ensures Acceptable(x.accepted, x.e.mss) && Acceptable(y.delivered, x.e.mss) && y.delivered <= x.accepted
    ensures var f, d := Pieces(x.accepted, x.e.mss), |Pieces(y.delivered, x.e.mss)|;
      && Sending(x.e, f) && Receiving(y.e, f, x.e.sndNxt, d) && NothingLost(x.e, y.e) && Acknowledging(y.e)
      && |y.e.rcvQueue| == y.e.rcvNxt - d && d <= y.e.rcvNxt <= x.e.sndNxt <= |f| < LIMIT
  {
  }

  lemma SomeSent(segments: seq<Segment>, sn: int) returns (s: Segment)
    requires Sends(segments, sn)
    ensures s in segments && s.cmd == CMD_PUSH && s.sn == sn
  {
    s :| s in segments && s.cmd == CMD_PUSH && s.sn == sn;
  }

  lemma SendsHere(p: Packet, s: Segment)
    requires s in p && s.cmd == CMD_PUSH
    ensures Sends(p, s.sn)
  {
  }

  // ---- one round ----

  // The messages not yet delivered, each of no more pieces than the window takes.
  predicate Deliverable(s: System) {
    forall k | |s.b.delivered| <= k < |s.a.accepted| :: PieceCount(|s.a.accepted[k]|, s.a.e.mss) <= s.b.e.rcvWnd
  }

  // How much is still to be taken out or to reach the queue.
  ghost function Left(s: System): int
    requires Acceptable(s.a.accepted, s.a.e.mss)
  {
    |s.a.accepted| - |s.b.delivered| + |Pieces(s.a.accepted, s.a.e.mss)| - s.b.e.rcvNxt
  }

  // The next message is taken out once it is there.
  lemma TakesNext(s: System, env: FlushEnv) returns (moves: seq<Move>)
    requires Reachable(s) && |s.b.delivered| < |s.a.accepted| && s.a.e.mss > 0
    requires |s.b.e.rcvQueue| >= PieceCount(|s.a.accepted[|s.b.delivered|]|, s.a.e.mss)
    ensures AllGentle(moves, env)
    ensures var s' := Run(s, moves);
      Reachable(s') && SameGoal(s, s') && |s'.b.delivered| == |s.b.delivered| + 1 && s.b.e.rcvNxt <= s'.b.e.rcvNxt
  {
    hide Half, Settled, Young, Recv, Pieces, Receiving, Sending, Grows, PieceCount, PeekSize;
    HalfParts(s.a, s.b, s.ab, s.ba);
    var k, mss := |s.b.delivered|, s.a.e.mss;
    var m := s.a.accepted[k];
    assert s.a.accepted[..k] == s.b.delivered;
    WholeInQueue(s.b.e, s.a.accepted, k, mss, s.a.e.sndNxt);
    RecvKeeps(s.b.e, s.a.accepted, k, mss, s.a.e.sndNxt, |m|);
    RecvSome(s.b.e, |m|);
    var move := Move(false, Take(|m|));
    GrowsNext(s.b.e, Recv(s.b.e, |m|).endpoint);
    StepReaches(s, move, env);
    moves := [move];
    RunOne(s, move);
  }

  lemma RecvSome(e: Endpoint, length: nat)
    requires e.rcvQueue != [] && 0 <= PeekSize(e.rcvQueue) <= length
    ensures Recv(e, length).code >= 0
  {
    hide PeekSize, Advance, Joined, HeadCount;
  }

  lemma GrowsNext(y: Endpoint, y': Endpoint)
    requires Grows(y, y')
    ensures y.rcvNxt <= y'.rcvNxt
  {
  }

  lemma Advances(s: System, env: FlushEnv) returns (moves: seq<Move>)
    requires Reachable(s) && Deliverable(s) && |s.b.delivered| < |s.a.accepted| && 0 < env.cwnd < LIMIT
    ensures AllGentle(moves, env) && Acceptable(s.a.accepted, s.a.e.mss)
    ensures var s' := Run(s, moves);
      Reachable(s') && SameGoal(s, s') && |s.b.delivered| <= |s'.b.delivered| && 0 <= Left(s') < Left(s)
  {
    hide Half, Settled, Young, Pieces, Receiving, Sending, PieceCount, Run;
    HalfParts(s.a, s.b, s.ab, s.ba);
    var k, mss := |s.b.delivered|, s.a.e.mss;
    assert s.a.accepted[..k] == s.b.delivered;
    PiecesNext(s.a.accepted, k, mss);
    PiecesSize(s.a.accepted[k], mss);
    if |s.b.e.rcvQueue| >= PieceCount(|s.a.accepted[k]|, mss) {
      moves := TakesNext(s, env);
    } else if s.b.e.rcvNxt < s.a.e.sndNxt {
      moves := SendsNext(s, env);
    } else {
      var first := Clears(s, env);
      var then' := SendsNext(Run(s, first), env);
      moves := first + then';
      RunConcat(s, first, then');
    }
    var s' := Run(s, moves);
    HalfParts(s'.a, s'.b, s'.ab, s'.ba);
  }

  lemma PiecesSize(m: Message, mss: nat)
    requires mss > 0 && PieceCount(|m|, mss) <= 255
    ensures |PiecesOf(m, mss)| == PieceCount(|m|, mss)
  {
    SplitFacts(m, mss, PieceCount(|m|, mss));
  }

  lemma {:induction false} Delivers(s: System, env: FlushEnv) returns (moves: seq<Move>)
    requires Reachable(s) && Deliverable(s) && 0 < env.cwnd < LIMIT
    ensures AllGentle(moves, env) && Acceptable(s.a.accepted, s.a.e.mss)
    ensures var s' := Run(s, moves); Reachable(s') && SameGoal(s, s') && s'.b.delivered == s.a.accepted
    decreases var left := if Acceptable(s.a.accepted, s.a.e.mss) then Left(s) else 0; left
  {
    hide Half, Settled, Young, Pieces, Receiving, Sending, PieceCount, Run;
    HalfParts(s.a, s.b, s.ab, s.ba);
    if |s.b.delivered| == |s.a.accepted| {
      moves := [];
      RunNothing(s);
    } else {
      var first := Advances(s, env);
      var s1 := Run(s, first);
      var rest := Delivers(s1, env);
      moves := first + rest;
      RunConcat(s, first, rest);
    }
  }

  lemma RunNothing(s: System)
    ensures Run(s, []) == s
  {
  }

  // After any run, when the messages not yet delivered fit the window of the other side, there
  // is a way to go on after which all are delivered: it offers nothing, and its flushes take
  // their parameters, with any window that is not empty, from `env`.
  lemma CanBeDelivered(conv: U32, mssA: Mss, wndA: nat, mssB: Mss, wndB: nat, moves: seq<Move>, env: FlushEnv) returns (more: seq<Move>)
    requires wndA < LIMIT && wndB < LIMIT && 0 < env.cwnd < LIMIT
    requires var s := Run(Start(conv, mssA, wndA, mssB, wndB), moves); Young(s.a) && Young(s.b) && Deliverable(s)
    ensures AllGentle(more, env)
    ensures var s0 := Start(conv, mssA, wndA, mssB, wndB);
      var s, s' := Run(s0, moves), Run(s0, moves + more);
      s'.a.accepted == s.a.accepted && s'.b.delivered == s.a.accepted
  {
    hide Run, Young, Settled, Deliverable, Half;
    var s0 := Start(conv, mssA, wndA, mssB, wndB);
    StartKeeps(conv, mssA, wndA, mssB, wndB);
    StartSettled(s0);
    RunKeeps(s0, moves);
    RunSettles(s0, moves);
    more := Delivers(Run(s0, moves), env);
    RunConcat(s0, moves, more);
  }

  // ---- only what fits is ever delivered ----

  predicate DeliveredFit(x: Peer, y: Peer) {
    forall m <- y.delivered :: x.e.mss > 0 ==> PieceCount(|m|, x.e.mss) <= y.e.rcvWnd
  }

  predicate BothFit(s: System) {
    DeliveredFit(s.a, s.b) && DeliveredFit(s.b, s.a)
  }

  lemma TakeFits(x: Peer, y: Peer, length: int, fwd: set<Packet>, bwd: set<Packet>)
    requires Half(x, y, fwd, bwd)
    ensures var r := Recv(y.e, length); r.code >= 0 ==> PieceCount(|r.message|, x.e.mss) <= y.e.rcvWnd
  {
    hide Pieces, Receiving, Sending, Carries, Grows, NothingLost, Reports, Recv, PieceCount, Acknowledging;
    var k, mss := |y.delivered|, x.e.mss;
    assert x.accepted[..k] == y.delivered;
    RecvKeeps(y.e, x.accepted, k, mss, x.e.sndNxt, length);
    if Recv(y.e, length).code >= 0 && PieceCount(|x.accepted[k]|, mss) > y.e.rcvWnd {
      OversizedStuck(y.e, x.accepted, k, mss, x.e.sndNxt, length);
    }
  }

  lemma ActFits(s: System, action: Action)
    requires Inv(s) && BothFit(s)
    ensures BothFit(Act(s, action))
  {
    hide Half, Addressed, Recv, Flush, Input, Encode, PieceCount, Split;
    if action.Offer? {
      SendSame(s.a.e, action.message);
    } else {
      ActSame(s, action);
    }
    if action.Take? {
      TakeFits(s.b, s.a, action.length, s.ba, s.ab);
    }
  }

  lemma SendSame(e: Endpoint, m: Message)
    ensures Send(e, m).0.mss == e.mss && Send(e, m).0.rcvWnd == e.rcvWnd
  {
  }

  lemma {:induction false} RunFits(s: System, moves: seq<Move>)
    requires Inv(s) && BothFit(s) && Young(Run(s, moves).a) && Young(Run(s, moves).b)
    ensures BothFit(Run(s, moves))
    decreases |moves|
  {
    hide Inv, Young, Act, DeliveredFit;
    if moves != [] {
      var before, move := Run(s, moves[..|moves| - 1]), moves[|moves| - 1];
      YoungBefore(before, move);
      RunKeeps(s, moves[..|moves| - 1]);
      RunFits(s, moves[..|moves| - 1]);
      InvSwaps(before);
      ActFits(if move.first then before else Swap(before), move.action);
    }
  }

  lemma InvSwaps(s: System)
    requires Inv(s)
    ensures Inv(Swap(s))
  {
  }

  lemma {:induction false} GentleSame(s: System, moves: seq<Move>, env: FlushEnv)
    requires AllGentle(moves, env)
    ensures SameGoal(s, Run(s, moves))
    decreases |moves|
  {
    hide Act;
    if moves != [] {
      var before, move := Run(s, moves[..|moves| - 1]), moves[|moves| - 1];
      GentleSame(s, moves[..|moves| - 1], env);
      assert Gentle(move, env);
      ActSame(if move.first then before else Swap(before), move.action);
    }
  }

  // After any run there is a way to go on after which everything is delivered if and only if
  // what is not yet delivered fits the window of the other side.
  lemma DeliveryExactly(conv: U32, mssA: Mss, wndA: nat, mssB: Mss, wndB: nat, moves: seq<Move>, env: FlushEnv)
    requires wndA < LIMIT && wndB < LIMIT && 0 < env.cwnd < LIMIT
    requires var s := Run(Start(conv, mssA, wndA, mssB, wndB), moves); Young(s.a) && Young(s.b)
    ensures var s0 := Start(conv, mssA, wndA, mssB, wndB);
      var s := Run(s0, moves);
      Deliverable(s) <==> exists more :: AllGentle(more, env) && Run(s0, moves + more).b.delivered == s.a.accepted
  {
    hide Run, Young, Half, Gentle, AllGentle, PieceCount;
    var s0 := Start(conv, mssA, wndA, mssB, wndB);
    var s := Run(s0, moves);
    StartKeeps(conv, mssA, wndA, mssB, wndB);
    if Deliverable(s) {
      var more := CanBeDelivered(conv, mssA, wndA, mssB, wndB, moves, env);
    }
    forall more | AllGentle(more, env) && Run(s0, moves + more).b.delivered == s.a.accepted
      ensures Deliverable(s)
    {
      RunConcat(s0, moves, more);
      GentleSame(s, more, env);
      YoungSame(s, Run(s0, moves + more));
      RunFits(s0, moves + more);
    }
  }

  lemma YoungSame(s: System, s': System)
    requires SameGoal(s, s') && Young(s.a) && Young(s.b)
    ensures Young(s'.a) && Young(s'.b)
  {
  }
}
