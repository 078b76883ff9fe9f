// Every run of two KCP endpoints over a network that loses, repeats, reorders and delays:
// each side takes out what the other was given, in order, once and whole.

module KcpRuns {
  import opened Words
  import opened KcpWire
  import opened KcpSpec
  import opened KcpProtocol
  import opened KcpSystem

  // ---- what every reachable state keeps ----

  ghost predicate Half(x: Peer, y: Peer, fwd: set<Packet>, bwd: set<Packet>) {
    && Acceptable(x.accepted, x.e.mss) && Acceptable(y.delivered, x.e.mss)
    && y.delivered <= x.accepted
    && Direction(x.e, y.e, Pieces(x.accepted, x.e.mss), |Pieces(y.delivered, x.e.mss)|, fwd, bwd)
  }

  ghost predicate Addressed(packets: set<Packet>, e: Endpoint) {
    forall p <- packets :: WellAddressed(p, e.conv) && |Encode(p)| <= e.mss + OVERHEAD
  }

  ghost predicate Inv(s: System) {
    && Half(s.a, s.b, s.ab, s.ba) && Half(s.b, s.a, s.ba, s.ab)
    && s.a.e.conv == s.b.e.conv && Addressed(s.ab, s.a.e) && Addressed(s.ba, s.b.e)
  }

  function TotalPieces(messages: seq<Message>, mss: nat): nat
    requires mss > 0
  {
    if messages == [] then 0 else TotalPieces(messages[..|messages| - 1], mss) + PieceCount(|messages[|messages| - 1]|, mss)
  }

  // Sequence numbers have not yet reached 2^31.
  predicate Young(p: Peer) {
    TotalPieces(p.accepted, p.e.mss) < LIMIT
  }

  lemma {:induction false} TotalIsLength(messages: seq<Message>, mss: nat)
    requires Acceptable(messages, mss)
    ensures |Pieces(messages, mss)| == TotalPieces(messages, mss)
    decreases |messages|
  {
    hide Split, PieceCount;
    if messages != [] {
      TotalIsLength(messages[..|messages| - 1], mss);
    }
  }

  // ---- one direction, step by step ----

  // The receiver moves on.
  lemma ReceiverMoves(x: Peer, y: Peer, e: Endpoint, fwd: set<Packet>, bwd: set<Packet>)
    requires Half(x, y, fwd, bwd) && Acknowledging(e) && Grows(y.e, e)
    requires Receiving(e, Pieces(x.accepted, x.e.mss), x.e.sndNxt, |Pieces(y.delivered, x.e.mss)|)
    ensures Half(x, y.(e := e), fwd, bwd)
  {
    hide Pieces, Receiving, Acknowledging, Sending, Carries, Grows, NothingLost, Reports;
    LostGrow(x.e, y.e, e);
    ReportsGrow(bwd, y.e, e);
  }

  // The sender moves on, its stream unchanged.
  lemma SenderMoves(x: Peer, y: Peer, e: Endpoint, fwd: set<Packet>, bwd: set<Packet>)
    requires Half(x, y, fwd, bwd) && e.mss == x.e.mss && x.e.sndNxt <= e.sndNxt
    requires Sending(e, Pieces(x.accepted, x.e.mss)) && NothingLost(e, y.e)
    ensures Half(x.(e := e), y, fwd, bwd)
  {
    hide Pieces, Receiving, Acknowledging, Carries, NothingLost, Reports;
    var f := Pieces(x.accepted, x.e.mss);
    StreamGrow(y.e, fwd, f, f, x.e.sndNxt, e.sndNxt, |Pieces(y.delivered, x.e.mss)|);
  }

  lemma OfferSender(x: Peer, y: Peer, m: Message, fwd: set<Packet>, bwd: set<Packet>)
    requires Half(x, y, fwd, bwd)
    requires var (e, code) := Send(x.e, m); code == 0 && Young(Peer(e, x.accepted + [m], x.delivered))
    ensures Half(Peer(Send(x.e, m).0, x.accepted + [m], x.delivered), y, fwd, bwd)
  {
    hide Split, Receiving, Acknowledging, NothingLost, Reports, Carries, PieceCount, Sending;
    var e := Send(x.e, m).0;
    var f, f' := Pieces(x.accepted, x.e.mss), Pieces(x.accepted + [m], x.e.mss);
    assert (x.accepted + [m])[..|x.accepted|] == x.accepted;
    assert f' == f + PiecesOf(m, x.e.mss);
    TotalIsLength(x.accepted + [m], x.e.mss);
    SendingMore(x.e, f, PiecesOf(m, x.e.mss));
    SendingLost(x.e, e, y.e);
    StreamGrow(y.e, fwd, f, f', x.e.sndNxt, e.sndNxt, |Pieces(y.delivered, x.e.mss)|);
  }

  lemma SendingMore(x: Endpoint, f: seq<Piece>, more: seq<Piece>)
    requires Sending(x, f) && |f + more| < LIMIT
    ensures Sending(x.(sndQueue := x.sndQueue + more), f + more) && x.sndNxt <= |f|
  {
    var x' := x.(sndQueue := x.sndQueue + more);
    forall g <- x'.sndBuf
      ensures FlightOK(g, x', f + more)
    {
      assert FlightOK(g, x, f);
    }
  }

  lemma SendingLost(x: Endpoint, x': Endpoint, y: Endpoint)
    requires NothingLost(x, y) && x'.sndNxt == x.sndNxt && x'.sndBuf == x.sndBuf
    ensures NothingLost(x', y)
  {
    forall sn | 0 <= sn < x.sndNxt
      ensures InBuffer(x', sn) || Has(y, sn)
    {
      assert InBuffer(x, sn) ==> InBuffer(x', sn);
    }
  }

  // What an endpoint does for its own messages leaves what it has received alone.
  lemma SameReceiverKeeps(x: Peer, y: Peer, e: Endpoint, fwd: set<Packet>, bwd: set<Packet>)
    requires Half(x, y, fwd, bwd) && SameReceiver(y.e, e) && (e.acks == y.e.acks || e.acks == [])
    ensures Half(x, y.(e := e), fwd, bwd)
  {
    hide Pieces, Sending, Genuine;
    assert forall sn | Has(y.e, sn) :: Has(e, sn);
    ReceiverMoves(x, y, e, fwd, bwd);
  }

  lemma TakeReceiver(x: Peer, y: Peer, length: int, fwd: set<Packet>, bwd: set<Packet>)
    requires Half(x, y, fwd, bwd)
    ensures var r := Recv(y.e, length);
      && SameSender(y.e, r.endpoint)
      && Half(x, Peer(r.endpoint, y.accepted, if r.code >= 0 && length >= 0 then y.delivered + [r.message] else y.delivered), fwd, bwd)
  {
    hide Pieces, Receiving, Sending, Carries, Grows, NothingLost, Reports, Recv;
    var k := |y.delivered|;
    assert x.accepted[..k] == y.delivered;
    RecvKeeps(y.e, x.accepted, k, x.e.mss, x.e.sndNxt, length);
    var r := Recv(y.e, length);
    AcknowledgingGrows(y.e, r.endpoint);
    LostGrow(x.e, y.e, r.endpoint);
    ReportsGrow(bwd, y.e, r.endpoint);
    if r.code >= 0 && length >= 0 {
      assert x.accepted[..k + 1] == y.delivered + [r.message];
    }
  }

  lemma AcknowledgingGrows(y: Endpoint, y': Endpoint)
    requires Acknowledging(y) && Grows(y, y') && y'.acks == y.acks
    ensures Acknowledging(y')
  {
  }

  lemma SameSenderKeeps(x: Peer, y: Peer, e: Endpoint, delivered: seq<Message>, fwd: set<Packet>, bwd: set<Packet>)
    requires Half(x, y, fwd, bwd) && SameSender(x.e, e)
    ensures Half(Peer(e, x.accepted, delivered), y, fwd, bwd)
  {
    hide Pieces, Receiving, Sending, NothingLost, Carries, Reports, Acknowledging;
    SendingDepends(x.e, e, y.e, Pieces(x.accepted, x.e.mss));
  }

  // What a datagram makes of an endpoint.
  lemma ArriveSegments(e: Endpoint, p: Packet)
    requires WellAddressed(p, e.conv)
    ensures Input(e, Encode(p)) == (FinishInput(InputSegments(e, p), LatestAck(NoAck, p)), 0)
  {
    hide EncodeHeader, InputSegment, DecodeHeader;
    assert p != [];
    assert |Encode(p)| >= OVERHEAD;
    InputEncoded(e, p, NoAck);
  }

  lemma ArriveSender(x: Peer, y: Peer, p: Packet, fwd: set<Packet>, bwd: set<Packet>)
    requires Half(x, y, fwd, bwd) && p in bwd && WellAddressed(p, x.e.conv)
    ensures var r := Input(x.e, Encode(p));
      r.1 == 0 && r.0.mss == x.e.mss && r.0.conv == x.e.conv && Half(x.(e := r.0), y, fwd, bwd)
  {
    hide Pieces, Receiving, Sending, NothingLost, Carries, Acknowledging, Input, InputSegments, FinishInput, Has, WellAddressed;
    var f := Pieces(x.accepted, x.e.mss);
    ArriveSegments(x.e, p);
    PacketSender(x.e, p, y.e, f, |Pieces(y.delivered, x.e.mss)|);
    FinishSender(InputSegments(x.e, p), LatestAck(NoAck, p), y.e, f);
    SenderMoves(x, y, Input(x.e, Encode(p)).0, fwd, bwd);
  }

  lemma ArriveReceiver(x: Peer, y: Peer, p: Packet, fwd: set<Packet>, bwd: set<Packet>)
    requires Half(x, y, fwd, bwd) && p in fwd && WellAddressed(p, y.e.conv)
    ensures Half(x, y.(e := Input(y.e, Encode(p)).0), fwd, bwd)
  {
    hide Pieces, Receiving, Sending, NothingLost, Reports, Acknowledging, Input, InputSegments, FinishInput, Has, WellAddressed, Genuine, Grows;
    var f := Pieces(x.accepted, x.e.mss);
    ArriveSegments(y.e, p);
    PacketReceiver(y.e, p, f, x.e.sndNxt, |Pieces(y.delivered, x.e.mss)|);
    var e1 := InputSegments(y.e, p);
    ReceiverMoves(x, y, e1, fwd, bwd);
    FinishReceiver(e1, LatestAck(NoAck, p));
    SameReceiverKeeps(x, y.(e := e1), FinishInput(e1, LatestAck(NoAck, p)), fwd, bwd);
  }

  lemma FinishReceiver(e: Endpoint, m: MaxAck)
    ensures SameReceiver(e, FinishInput(e, m)) && FinishInput(e, m).acks == e.acks
  {
  }

  // ---- a flush ----

  // The datagrams of a flush: well addressed, within the mtu, and true to the streams.
  lemma EmitPackets(x: Peer, y: Peer, env: FlushEnv, fwd: set<Packet>, bwd: set<Packet>)
    requires Half(x, y, fwd, bwd)
    ensures var r := Flush(x.e, env);
      && r.endpoint.mss == x.e.mss && SameReceiver(x.e, r.endpoint) && r.endpoint.acks == []
      && x.e.sndNxt <= r.endpoint.sndNxt
      && Sending(r.endpoint, Pieces(x.accepted, x.e.mss)) && NothingLost(r.endpoint, y.e)
      && forall p <- Datagrams(r) ::
           && WellAddressed(p, x.e.conv) && |Encode(p)| <= x.e.mss + OVERHEAD
           && forall s <- p ::
                && (s.cmd == CMD_PUSH ==> Genuine(s, Pieces(x.accepted, x.e.mss), r.endpoint.sndNxt))
                && s.una == x.e.rcvNxt && (s.cmd == CMD_ACK ==> exists a <- x.e.acks :: s.sn == a.0)
  {
    hide Pieces, Receiving, Acknowledging, NothingLost, Carries, Reports, Sending, Flush, Group, Encode;
    var f := Pieces(x.accepted, x.e.mss);
    FlushSegments(x.e, env, y.e, f);
    PieceSizes(x.accepted, x.e.mss);
    var r := Flush(x.e, env);
    var mtu := x.e.mss + OVERHEAD;
    forall s <- r.segments
      ensures Fits(s, mtu)
    {
      if s.cmd == CMD_PUSH {
        assert f[s.sn] in f;
      }
    }
    EncodeNothing();
    GroupFacts([], r.segments, mtu);
    FlattenedMembers(Datagrams(r));
  }

  lemma EmitSender(x: Peer, y: Peer, env: FlushEnv, fwd: set<Packet>, bwd: set<Packet>)
    requires Half(x, y, fwd, bwd)
    ensures var r := Flush(x.e, env); Half(x.(e := r.endpoint), y, fwd + Sent(r), bwd)
  {
    hide Pieces, Receiving, Acknowledging, NothingLost, Reports, Sending, Flush, Group, Encode, Genuine;
    EmitPackets(x, y, env, fwd, bwd);
    var r := Flush(x.e, env);
    SenderMoves(x, y, r.endpoint, fwd, bwd);
  }

  lemma EmitReceiver(x: Peer, y: Peer, env: FlushEnv, fwd: set<Packet>, bwd: set<Packet>)
    requires Half(x, y, fwd, bwd) && Half(y, x, bwd, fwd)
    ensures var r := Flush(y.e, env); Half(x, y.(e := r.endpoint), fwd, bwd + Sent(r))
  {
    hide Pieces, Receiving, NothingLost, Sending, Carries, Flush, Group, Encode, Genuine, Has;
    EmitPackets(y, x, env, bwd, fwd);
    var r := Flush(y.e, env);
    SameReceiverKeeps(x, y, r.endpoint, fwd, bwd);
    HasSame(y.e, r.endpoint);
  }

  lemma HasSame(y: Endpoint, y': Endpoint)
    requires SameReceiver(y, y')
    ensures forall sn | Has(y, sn) :: Has(y', sn)
  {
  }

  // ---- every step, every run ----

  lemma StartKeeps(conv: U32, mssA: Mss, wndA: nat, mssB: Mss, wndB: nat)
    requires wndA < LIMIT && wndB < LIMIT
    ensures Inv(Start(conv, mssA, wndA, mssB, wndB))
  {
  }

  lemma AcceptedIrrelevant(x: Peer, y: Peer, accepted: seq<Message>, fwd: set<Packet>, bwd: set<Packet>)
    requires Half(x, y, fwd, bwd)
    ensures Half(x, y.(accepted := accepted), fwd, bwd)
  {
  }

  lemma OfferKeeps(s: System, m: Message)
    requires Inv(s) && Young(Act(s, Offer(m)).a)
    ensures Inv(Act(s, Offer(m)))
  {
    hide Half, WellAddressed, PieceCount, Split;
    var (e, code) := Send(s.a.e, m);
    if code == 0 {
      OfferSender(s.a, s.b, m, s.ab, s.ba);
      SameReceiverKeeps(s.b, s.a, e, s.ba, s.ab);
      AcceptedIrrelevant(s.b, s.a.(e := e), s.a.accepted + [m], s.ba, s.ab);
    }
  }

  lemma TakeSteps(s: System, length: int)
    requires Inv(s)
    ensures Inv(Act(s, Take(length)))
  {
    hide Half, WellAddressed, Recv;
    TakeReceiver(s.b, s.a, length, s.ba, s.ab);
    var r := Recv(s.a.e, length);
    SameSenderKeeps(s.a, s.b, r.endpoint, Act(s, Take(length)).a.delivered, s.ab, s.ba);
  }

  lemma ArriveSteps(s: System, p: Packet)
    requires Inv(s)
    ensures Inv(Act(s, Arrive(p)))
  {
    hide Half, WellAddressed, Input, Encode;
    if p in s.ba {
      ArriveSender(s.a, s.b, p, s.ab, s.ba);
      ArriveReceiver(s.b, s.a, p, s.ba, s.ab);
    }
  }

  lemma EmitSteps(s: System, env: FlushEnv)
    requires Inv(s)
    ensures Inv(Act(s, Emit(env)))
  {
    hide Half, WellAddressed, Flush, Encode, Group;
    EmitPackets(s.a, s.b, env, s.ab, s.ba);
    EmitSender(s.a, s.b, env, s.ab, s.ba);
    EmitReceiver(s.b, s.a, env, s.ba, s.ab);
  }

  lemma ActKeeps(s: System, action: Action)
    requires Inv(s) && Young(Act(s, action).a)
    ensures Inv(Act(s, action))
  {
    hide Inv, Act, Young;
    match action
    case Offer(m) => OfferKeeps(s, m);
    case Take(length) => TakeSteps(s, length);
    case Arrive(p) => ArriveSteps(s, p);
    case Emit(env) => EmitSteps(s, env);
  }

  lemma StepKeeps(s: System, move: Move)
    requires Inv(s) && Young(Step(s, move).a) && Young(Step(s, move).b)
    ensures Inv(Step(s, move))
  {
    hide Half, Addressed, Act, Young;
    if move.first {
      ActKeeps(s, move.action);
    } else {
      ActKeeps(Swap(s), move.action);
    }
  }

  // Messages are only ever added.
  lemma YoungBefore(s: System, move: Move)
    requires Young(Step(s, move).a) && Young(Step(s, move).b)
    ensures Young(s.a) && Young(s.b)
  {
    hide KcpSpec.Flush, Input, Recv, Encode, Group, Split, PieceCount;
    var s0 := if move.first then s else Swap(s);
    var s1 := Act(s0, move.action);
    if move.action.Emit? { FlushMss(s0.a.e, move.action.env); }
    if move.action.Arrive? { InputMss(s0.a.e, Encode(move.action.packet)); }
    if move.action.Take? { RecvMss(s0.a.e, move.action.length); }
    if move.action.Offer? {
      var m := move.action.message;
      assert (s0.a.accepted + [m])[..|s0.a.accepted|] == s0.a.accepted;
    }
  }

  lemma FlushMss(e: Endpoint, env: FlushEnv)
    ensures SameReceiver(e, Flush(e, env).endpoint)
  {
    NumberMss(e.(acks := []), env);
  }

  lemma {:induction false} NumberMss(e: Endpoint, env: FlushEnv)
    ensures SameReceiver(e, NumberAll(e, env))
    decreases |e.sndQueue|
  {
    hide TimeDiff;
    if TimeDiff(e.sndNxt, (e.sndUna + env.cwnd) % WORD) < 0 && e.sndQueue != [] {
      NumberMss(e.(sndQueue := e.sndQueue[1..], sndBuf := e.sndBuf + [Number(e, env, e.sndQueue[0])],
                   sndNxt := (e.sndNxt + 1) % WORD), env);
    }
  }

  lemma RecvMss(e: Endpoint, length: int)
    ensures Recv(e, length).endpoint.mss == e.mss
  {
    AdvanceSender(e);
    AdvanceSender(e.(rcvQueue := e.rcvQueue[HeadCount(e.rcvQueue)..]));
  }

  lemma {:induction false} InputMss(e: Endpoint, d: seq<Byte>)
    ensures Input(e, d).0.mss == e.mss
  {
    InputFromMss(e, d, NoAck);
  }

  lemma {:induction false} InputFromMss(e: Endpoint, d: seq<Byte>, m: MaxAck)
    ensures InputFrom(e, d, m).0.mss == e.mss
    decreases |d|
  {
    hide InputSegment, DecodeHeader, Later;
    if |d| >= OVERHEAD {
      var (s, length) := DecodeHeader(d);
      if s.conv == e.conv && |d| - OVERHEAD >= length && KnownCommand(s.cmd) {
        var s' := s.(data := d[OVERHEAD..OVERHEAD + length]);
        KeepsConv(e, s');
        InputFromMss(InputSegment(e, s'), d[OVERHEAD + length..], Later(m, s'));
      }
    }
  }

  lemma {:induction false} RunKeeps(s: System, moves: seq<Move>)
    requires Inv(s) && Young(Run(s, moves).a) && Young(Run(s, moves).b)
    ensures Inv(Run(s, moves))
    decreases |moves|
  {
    hide Inv, Young, Step;
    if moves != [] {
      var before := Run(s, moves[..|moves| - 1]);
      YoungBefore(before, moves[|moves| - 1]);
      RunKeeps(s, moves[..|moves| - 1]);
      StepKeeps(before, moves[|moves| - 1]);
    }
  }

  // ---- what the applications see ----

  // However the network behaves, each side has taken out a prefix of what the other sent.
  lemma InOrderOnceWhole(conv: U32, mssA: Mss, wndA: nat, mssB: Mss, wndB: nat, moves: seq<Move>)
    requires wndA < LIMIT && wndB < LIMIT
    requires var s := Run(Start(conv, mssA, wndA, mssB, wndB), moves); Young(s.a) && Young(s.b)
    ensures var s := Run(Start(conv, mssA, wndA, mssB, wndB), moves);
      s.b.delivered <= s.a.accepted && s.a.delivered <= s.b.accepted
  {
    hide Run, Direction, Start, Pieces;
    StartKeeps(conv, mssA, wndA, mssB, wndB);
    RunKeeps(Start(conv, mssA, wndA, mssB, wndB), moves);
  }

  // Both buffers of an endpoint are strictly sorted inside their windows.
  ghost predicate Windowed(e: Endpoint) {
    && AscendingFlights(e.sndBuf) && (forall g <- e.sndBuf :: e.sndUna <= g.seg.sn < e.sndNxt)
    && Ascending(e.rcvBuf) && (forall s <- e.rcvBuf :: e.rcvNxt <= s.sn < e.rcvNxt + e.rcvWnd)
  }

  // No numbered segment is ever lost, the buffers stay sorted inside their windows, and every
  // datagram on the way is within the mtu and understood by the endpoint it is sent to.
  lemma NeverLost(conv: U32, mssA: Mss, wndA: nat, mssB: Mss, wndB: nat, moves: seq<Move>)
    requires wndA < LIMIT && wndB < LIMIT
    requires var s := Run(Start(conv, mssA, wndA, mssB, wndB), moves); Young(s.a) && Young(s.b)
    ensures var s := Run(Start(conv, mssA, wndA, mssB, wndB), moves);
      && NothingLost(s.a.e, s.b.e) && NothingLost(s.b.e, s.a.e) && Windowed(s.a.e) && Windowed(s.b.e)
      && (forall p <- s.ab :: |Encode(p)| <= s.a.e.mss + OVERHEAD && Input(s.b.e, Encode(p)).1 == 0)
      && (forall p <- s.ba :: |Encode(p)| <= s.b.e.mss + OVERHEAD && Input(s.a.e, Encode(p)).1 == 0)
  {
    hide Run, Start, Pieces, WellAddressed, Encode, Input, NothingLost;
    StartKeeps(conv, mssA, wndA, mssB, wndB);
    RunKeeps(Start(conv, mssA, wndA, mssB, wndB), moves);
    var s := Run(Start(conv, mssA, wndA, mssB, wndB), moves);
    forall p <- s.ab
      ensures Input(s.b.e, Encode(p)).1 == 0
    {
      ArriveSegments(s.b.e, p);
    }
    forall p <- s.ba
      ensures Input(s.a.e, Encode(p)).1 == 0
    {
      ArriveSegments(s.a.e, p);
    }
  }

  lemma EmptyBuffers(x: Endpoint, y: Endpoint)
    requires NothingLost(x, y) && x.sndBuf == [] && y.rcvBuf == []
    ensures x.sndNxt <= y.rcvNxt
  {
    var n := y.rcvNxt;
    assert n < x.sndNxt ==> InBuffer(x, n) || Has(y, n);
  }

  // When the sender has nothing queued or in flight and the receiver nothing waiting, every
  // message has been delivered.
  lemma QuietDelivers(s: System)
    requires Inv(s) && s.a.e.sndQueue == [] && s.a.e.sndBuf == [] && s.b.e.rcvBuf == [] && s.b.e.rcvQueue == []
    ensures s.b.delivered == s.a.accepted
  {
    hide Pieces, Addressed, Carries, Reports;
    var mss := s.a.e.mss;
    var f := Pieces(s.a.accepted, mss);
    EmptyBuffers(s.a.e, s.b.e);
    assert |Pieces(s.b.delivered, mss)| == |f|;
    if |s.b.delivered| < |s.a.accepted| {
      assert s.a.accepted[..|s.b.delivered|] == s.b.delivered;
      PiecesNext(s.a.accepted, |s.b.delivered|, mss);
    }
  }

  // In any run: when both ends are at rest and hold nothing, everything has been delivered.
  lemma QuietMeansDelivered(conv: U32, mssA: Mss, wndA: nat, mssB: Mss, wndB: nat, moves: seq<Move>)
    requires wndA < LIMIT && wndB < LIMIT
    requires var s := Run(Start(conv, mssA, wndA, mssB, wndB), moves);
      Young(s.a) && Young(s.b) && s.a.e.sndQueue == [] && s.a.e.sndBuf == [] && s.b.e.rcvBuf == [] && s.b.e.rcvQueue == []
    ensures var s := Run(Start(conv, mssA, wndA, mssB, wndB), moves); s.b.delivered == s.a.accepted
  {
    hide Run, Start, Pieces, Addressed, Carries, Reports, Direction;
    StartKeeps(conv, mssA, wndA, mssB, wndB);
    RunKeeps(Start(conv, mssA, wndA, mssB, wndB), moves);
    QuietDelivers(Run(Start(conv, mssA, wndA, mssB, wndB), moves));
  }

  // A message is refused, with -2, if and only if it is longer than 255 full pieces.
  lemma SendExactly(e: Endpoint, m: Message)
    ensures Send(e, m).1 == if |m| <= 255 * e.mss then 0 else -2
    ensures Send(e, m).1 != 0 ==> Send(e, m).0 == e
  {
    hide Split;
    var count, mss: nat := PieceCount(|m|, e.mss), e.mss;
    if count > 255 {
      MulMonotone(255, count - 1, mss);
      Longer(m, mss, count);
    } else {
      MulMonotone(count, 255, mss);
    }
  }

  // The last of several pieces is not empty.
  lemma Longer(m: Message, mss: nat, count: nat)
    requires mss > 0 && count == PieceCount(|m|, mss) > 1
    ensures (count - 1) * mss < |m|
  {
    var x, q := |m| + mss - 1, (|m| + mss - 1) / mss;
    var r := x % mss;
    assert x == mss * q + r;
    assert (q - 1) * mss == mss * q - mss;
  }

  // What each code of Recv tells: nothing is there, the message is not complete, it does not fit
  // the room, or its length.
  lemma RecvAnswers(y: Endpoint, messages: seq<Message>, k: nat, mss: nat, n: int, length: int)
    requires Acceptable(messages, mss) && k < |messages| && Acceptable(messages[..k], mss)
    requires Receiving(y, Pieces(messages, mss), n, |Pieces(messages[..k], mss)|)
    ensures var room := if length < 0 then -length else length;
      Recv(y, length).code ==
        if y.rcvQueue == [] then -1 else if |y.rcvQueue| < PieceCount(|messages[k]|, mss) then -2
        else if |messages[k]| > room then -3 else |messages[k]|
  {
    hide Pieces, Split, PiecesOf, Joined, HeadCount, PeekSize, PieceCount, Advance;
    if y.rcvQueue != [] && PeekSize(y.rcvQueue) >= 0 {
      QueueAtMessage(y, messages, k, mss, n);
    }
    if y.rcvQueue != [] && |y.rcvQueue| >= PieceCount(|messages[k]|, mss) {
      WholeInQueue(y, messages, k, mss, n);
      QueueAtMessage(y, messages, k, mss, n);
    }
  }

  // ---- what can be received is received ----

  // The reordering buffer never keeps what the receive queue has room for.
  predicate Settled(e: Endpoint) {
    e.rcvBuf == [] || e.rcvBuf[0].sn != e.rcvNxt || |e.rcvQueue| >= e.rcvWnd
  }

  lemma {:induction false} AdvanceSettles(e: Endpoint)
    ensures Settled(Advance(e))
    decreases |e.rcvBuf|
  {
    if !Settled(e) {
      AdvanceSettles(e.(rcvNxt := (e.rcvNxt + 1) % WORD, rcvBuf := e.rcvBuf[1..], rcvQueue := e.rcvQueue + [e.rcvBuf[0]]));
    }
  }

  lemma SegmentSettles(e: Endpoint, s: Segment)
    requires Settled(e)
    ensures Settled(InputSegment(e, s))
  {
    hide TimeDiff, Advance, Insert, DropAcknowledged, Remove;
    var e1 := Shrink(e.(sndBuf := DropAcknowledged(e.sndBuf, s.una)));
    AdvanceSettles(e1.(acks := e1.acks + [(s.sn, s.ts)], rcvBuf := Insert(e1.rcvBuf, s)));
  }

  lemma {:induction false} InputSettles(e: Endpoint, d: seq<Byte>, m: MaxAck)
    requires Settled(e)
    ensures Settled(InputFrom(e, d, m).0)
    decreases |d|
  {
    hide InputSegment, DecodeHeader, Later, Settled;
    if |d| < OVERHEAD {
      FinishReceiver(e, m);
      SameSettled(e, FinishInput(e, m));
    } else {
      var (s, length) := DecodeHeader(d);
      if s.conv == e.conv && |d| - OVERHEAD >= length && KnownCommand(s.cmd) {
        var s' := s.(data := d[OVERHEAD..OVERHEAD + length]);
        SegmentSettles(e, s');
        InputSettles(InputSegment(e, s'), d[OVERHEAD + length..], Later(m, s'));
      }
    }
  }

  lemma SameSettled(e: Endpoint, e': Endpoint)
    requires Settled(e) && SameReceiver(e, e')
    ensures Settled(e')
  {
  }

  lemma RecvSettles(e: Endpoint, length: int)
    requires Settled(e)
    ensures Settled(Recv(e, length).endpoint)
  {
    AdvanceSettles(e);
    AdvanceSettles(e.(rcvQueue := e.rcvQueue[HeadCount(e.rcvQueue)..]));
  }

  lemma ActSettles(s: System, action: Action)
    requires Settled(s.a.e) && Settled(s.b.e)
    ensures Settled(Act(s, action).a.e) && Settled(Act(s, action).b.e)
  {
    hide Settled, KcpSpec.Flush, Recv, Encode, Group, Split, PieceCount, InputFrom;
    match action
    case Offer(m) => SameSettled(s.a.e, Send(s.a.e, m).0);
    case Take(length) => RecvSettles(s.a.e, length);
    case Arrive(p) => InputSettles(s.a.e, Encode(p), NoAck);
    case Emit(env) =>
      FlushMss(s.a.e, env);
      SameSettled(s.a.e, Flush(s.a.e, env).endpoint);
  }

  lemma {:induction false} RunSettles(s: System, moves: seq<Move>)
    requires Settled(s.a.e) && Settled(s.b.e)
    ensures var s' := Run(s, moves); Settled(s'.a.e) && Settled(s'.b.e)
    decreases |moves|
  {
    hide Settled, Act;
    if moves != [] {
      var before, move := Run(s, moves[..|moves| - 1]), moves[|moves| - 1];
      RunSettles(s, moves[..|moves| - 1]);
      ActSettles(if move.first then before else Swap(before), move.action);
    }
  }

  // All the pieces of message `k` have reached the receiver.
  ghost predicate Complete(y: Endpoint, messages: seq<Message>, k: nat, mss: nat)
    requires Acceptable(messages, mss) && k < |messages| && Acceptable(messages[..k], mss)
  {
    var d := |Pieces(messages[..k], mss)|;
    forall sn | d <= sn < d + PieceCount(|messages[k]|, mss) :: Has(y, sn)
  }

  // A number that the receiver has and has not passed on starts its buffer.
  lemma NextInBuffer(y: Endpoint, f: seq<Piece>, n: int, d: nat)
    requires Receiving(y, f, n, d) && Has(y, y.rcvNxt)
    ensures y.rcvBuf != [] && y.rcvBuf[0].sn == y.rcvNxt
  {
    var s :| s in y.rcvBuf && s.sn == y.rcvNxt;
    assert y.rcvBuf[0] in y.rcvBuf;
    var j :| 0 <= j < |y.rcvBuf| && y.rcvBuf[j] == s;
    assert j > 0 ==> y.rcvBuf[0].sn < y.rcvBuf[j].sn;
  }

  // The next message, once its pieces are there, can be received if and only if the receive
  // window has room for all of them.
  lemma ReceivableIff(y: Endpoint, messages: seq<Message>, k: nat, mss: nat, n: int, length: int)
    requires Acceptable(messages, mss) && k < |messages| && Acceptable(messages[..k], mss)
    requires Receiving(y, Pieces(messages, mss), n, |Pieces(messages[..k], mss)|)
    requires Settled(y) && Complete(y, messages, k, mss) && (length >= |messages[k]| || -length >= |messages[k]|)
    ensures var r := Recv(y, length);
      && (r.code >= 0 <==> PieceCount(|messages[k]|, mss) <= y.rcvWnd)
      && (r.code >= 0 ==> r.message == messages[k])
  {
    hide Pieces, Split, PiecesOf, Joined, HeadCount, PeekSize, PieceCount, Advance;
    var f, d := Pieces(messages, mss), |Pieces(messages[..k], mss)|;
    var count := PieceCount(|messages[k]|, mss);
    if count > y.rcvWnd {
      OversizedStuck(y, messages, k, mss, n, length);
    } else {
      if |y.rcvQueue| < count {
        NextInBuffer(y, f, n, d);
        assert false;
      }
      WholeInQueue(y, messages, k, mss, n);
      QueueAtMessage(y, messages, k, mss, n);
    }
  }

  lemma WholeInQueue(y: Endpoint, messages: seq<Message>, k: nat, mss: nat, n: int)
    requires Acceptable(messages, mss) && k < |messages| && Acceptable(messages[..k], mss)
    requires Receiving(y, Pieces(messages, mss), n, |Pieces(messages[..k], mss)|)
    requires |y.rcvQueue| >= PieceCount(|messages[k]|, mss)
    ensures y.rcvQueue != [] && PeekSize(y.rcvQueue) == |messages[k]|
  {
    hide Pieces, Split, Joined, HeadCount, PeekSize;
    var d := |Pieces(messages[..k], mss)|;
    PiecesNext(messages, k, mss);
    var pieces := PiecesOf(messages[k], mss);
    forall i | 0 <= i < |y.rcvQueue| && i < |pieces|
      ensures PieceOf(y.rcvQueue[i]) == pieces[i]
    {
      assert Pieces(messages[..k + 1], mss)[d + i] == pieces[i];
    }
    PeekWhole(y.rcvQueue, messages[k], mss);
  }

  // After any run: when all the pieces of the next message have reached the other side, a call
  // of Recv with enough room returns that message, whole, if and only if the receive window has
  // room for all its pieces; a message of more pieces than that blocks the stream for ever.
  lemma NextReceivable(conv: U32, mssA: Mss, wndA: nat, mssB: Mss, wndB: nat, moves: seq<Move>, length: int)
    requires wndA < LIMIT && wndB < LIMIT
    requires var s := Run(Start(conv, mssA, wndA, mssB, wndB), moves);
      Young(s.a) && Young(s.b) && |s.b.delivered| < |s.a.accepted|
    ensures var s := Run(Start(conv, mssA, wndA, mssB, wndB), moves);
      var k, mss := |s.b.delivered|, s.a.e.mss;
      var m := s.a.accepted[k];
      && Acceptable(s.a.accepted, mss) && Acceptable(s.a.accepted[..k], mss)
      && var r := Recv(s.b.e, length);
         && (PieceCount(|m|, mss) > s.b.e.rcvWnd ==> r.code < 0)
         && (Complete(s.b.e, s.a.accepted, k, mss) && PieceCount(|m|, mss) <= s.b.e.rcvWnd && (length >= |m| || -length >= |m|) ==>
               r.code == |m| && r.message == m)
  {
    hide Run, Pieces, WellAddressed, Encode, Input, NothingLost, Addressed, Carries, Reports, Recv, Complete, Settled, Sending, Receiving, Acknowledging;
    var s0 := Start(conv, mssA, wndA, mssB, wndB);
    StartKeeps(conv, mssA, wndA, mssB, wndB);
    StartSettled(s0);
    RunKeeps(s0, moves);
    RunSettles(s0, moves);
    var s := Run(s0, moves);
    var k, mss := |s.b.delivered|, s.a.e.mss;
    assert s.a.accepted[..k] == s.b.delivered;
    RecvCode(s.b.e, s.a.accepted, k, mss, s.a.e.sndNxt, length);
    if PieceCount(|s.a.accepted[k]|, mss) > s.b.e.rcvWnd {
      OversizedStuck(s.b.e, s.a.accepted, k, mss, s.a.e.sndNxt, length);
    } else if Complete(s.b.e, s.a.accepted, k, mss) && (length >= |s.a.accepted[k]| || -length >= |s.a.accepted[k]|) {
      ReceivableIff(s.b.e, s.a.accepted, k, mss, s.a.e.sndNxt, length);
    }
  }

  lemma StartSettled(s: System)
    requires s.a.e.rcvBuf == [] && s.b.e.rcvBuf == []
    ensures Settled(s.a.e) && Settled(s.b.e)
  {
  }

  lemma RecvCode(y: Endpoint, messages: seq<Message>, k: nat, mss: nat, n: int, length: int)
    requires Acceptable(messages, mss) && k < |messages| && Acceptable(messages[..k], mss)
    requires Receiving(y, Pieces(messages, mss), n, |Pieces(messages[..k], mss)|)
    ensures var r := Recv(y, length); r.code >= 0 ==> r.code == |messages[k]|
  {
    hide Recv, Receiving, Pieces;
    RecvKeeps(y, messages, k, mss, n, length);
  }
}
