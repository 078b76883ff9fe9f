// Whole runs of two KCP endpoints: what every reachable state keeps, and what the
// applications on both sides see.

module KcpSystem {
  import opened Words
  import opened KcpWire
  import opened KcpSpec
  import opened KcpProtocol

  // ---- messages in the stream ----

  lemma {:induction false} PiecesPrefix(messages: seq<Message>, k: nat, mss: nat)
    requires Acceptable(messages, mss) && k <= |messages|
    ensures Acceptable(messages[..k], mss) && Pieces(messages[..k], mss) <= Pieces(messages, mss)
    decreases |messages|
  {
    if k < |messages| {
      var front := messages[..|messages| - 1];
      assert front[..k] == messages[..k];
      PiecesPrefix(front, k, mss);
    } else {
      assert messages[..k] == messages;
    }
  }

  lemma {:induction false} PiecesNext(messages: seq<Message>, k: nat, mss: nat)
    requires Acceptable(messages, mss) && k < |messages|
    ensures Acceptable(messages[..k], mss) && Acceptable(messages[..k + 1], mss)
    ensures Pieces(messages[..k + 1], mss) == Pieces(messages[..k], mss) + PiecesOf(messages[k], mss)
    ensures Pieces(messages[..k + 1], mss) <= Pieces(messages, mss)
  {
    PiecesPrefix(messages, k, mss);
    PiecesPrefix(messages, k + 1, mss);
    assert messages[..k + 1][..k] == messages[..k];
  }

  // In front of the pieces of a whole message the queue gives that message; until they are
  // all there it gives nothing.
  lemma {:induction false} PeekWhole(queue: seq<Segment>, message: Message, mss: nat)
    requires mss > 0 && PieceCount(|message|, mss) <= 255 && queue != []
    requires var pieces := PiecesOf(message, mss);
      forall i | 0 <= i < |queue| && i < |pieces| :: PieceOf(queue[i]) == pieces[i]
    ensures var count := PieceCount(|message|, mss);
      if |queue| < count then PeekSize(queue) == -1
      else PeekSize(queue) == |message| && HeadCount(queue) == count && Joined(queue[..count]) == message
  {
    var count := PieceCount(|message|, mss);
    SplitFacts(message, mss, count);
    assert PieceOf(queue[0]) == PiecesOf(message, mss)[0];
    if |queue| >= count {
      JoinSplit(queue, message, mss, count);
      if count == 1 {
        assert queue[..1][1..] == [];
        assert Joined(queue[..1]) == queue[0].data + [];
      }
    }
  }

  // What a call of Recv gives, `k` messages having been delivered before.
  lemma {:induction false} RecvKeeps(y: Endpoint, messages: seq<Message>, k: nat, mss: nat, n: int, length: int)
    requires Acceptable(messages, mss) && k <= |messages| && Acceptable(messages[..k], mss)
    requires Receiving(y, Pieces(messages, mss), n, |Pieces(messages[..k], mss)|)
    ensures var r := Recv(y, length);
      && Grows(y, r.endpoint) && SameSender(y, r.endpoint) && r.endpoint.acks == y.acks
      && (r.code >= 0 ==> k < |messages| && r.message == messages[k] && r.code == |messages[k]| == PeekSize(y.rcvQueue))
      && (r.code < 0 ==> r.endpoint == y)
      && (r.code >= 0 && length >= 0 ==>
            && Acceptable(messages[..k + 1], mss)
            && Receiving(r.endpoint, Pieces(messages, mss), n, |Pieces(messages[..k + 1], mss)|))
      && (r.code < 0 || length < 0 ==> Receiving(r.endpoint, Pieces(messages, mss), n, |Pieces(messages[..k], mss)|))
  {
    hide Pieces, Split, PiecesOf, Joined, HeadCount, PeekSize, Receiving, Grows, Advance;
    var f, d := Pieces(messages, mss), |Pieces(messages[..k], mss)|;
    var r := Recv(y, length);
    GrowsSelf(y);
    if r.code >= 0 {
      QueueAtMessage(y, messages, k, mss, n);
      PiecesNext(messages, k, mss);
      var count := PieceCount(|messages[k]|, mss);
      if length < 0 {
        AdvanceKeeps(y, f, n, d);
      } else {
        TakeKeeps(y, f, n, d, count);
      }
    }
  }

  // Taking `count` pieces off the receive queue makes room for those that wait behind it.
  lemma TakeKeeps(y: Endpoint, f: seq<Piece>, n: int, d: nat, count: nat)
    requires Receiving(y, f, n, d) && count <= |y.rcvQueue|
    ensures var y' := Advance(y.(rcvQueue := y.rcvQueue[count..]));
      Receiving(y', f, n, d + count) && Grows(y, y') && SameSender(y, y') && y'.acks == y.acks
  {
    var y' := y.(rcvQueue := y.rcvQueue[count..]);
    assert Receiving(y', f, n, d + count) by { hide Advance; }
    AdvanceKeeps(y', f, n, d + count);
    GrowsFrom(y, y', Advance(y'));
  }

  lemma GrowsSelf(y: Endpoint)
    ensures Grows(y, y)
  {
  }

  lemma GrowsFrom(y: Endpoint, y': Endpoint, y'': Endpoint)
    requires y'.rcvNxt == y.rcvNxt && y'.rcvBuf == y.rcvBuf && Grows(y', y'')
    ensures Grows(y, y'')
  {
    forall sn | Has(y, sn)
      ensures Has(y'', sn)
    {
      assert Has(y', sn);
    }
  }

  lemma {:induction false} QueueAtMessage(y: Endpoint, messages: seq<Message>, k: nat, mss: nat, n: int)
    requires Acceptable(messages, mss) && k <= |messages| && Acceptable(messages[..k], mss)
    requires Receiving(y, Pieces(messages, mss), n, |Pieces(messages[..k], mss)|)
    requires y.rcvQueue != [] && PeekSize(y.rcvQueue) >= 0
    ensures k < |messages|
    ensures var count := PieceCount(|messages[k]|, mss);
      && |PiecesOf(messages[k], mss)| == count <= |y.rcvQueue| && HeadCount(y.rcvQueue) == count
      && PeekSize(y.rcvQueue) == |messages[k]| && Joined(y.rcvQueue[..count]) == messages[k]
  {
    hide Pieces, Split, Joined, HeadCount, PeekSize;
    var f, d := Pieces(messages, mss), |Pieces(messages[..k], mss)|;
    assert messages[..|messages|] == messages;
    PiecesNext(messages, k, mss);
    var pieces := PiecesOf(messages[k], mss);
    forall i | 0 <= i < |y.rcvQueue| && i < |pieces|
      ensures PieceOf(y.rcvQueue[i]) == pieces[i]
    {
      assert Pieces(messages[..k + 1], mss)[d + i] == pieces[i];
    }
    PeekWhole(y.rcvQueue, messages[k], mss);
  }

  // A message of more pieces than the receive window is never handed out.
  lemma OversizedStuck(y: Endpoint, messages: seq<Message>, k: nat, mss: nat, n: int, length: int)
    requires Acceptable(messages, mss) && k < |messages| && Acceptable(messages[..k], mss)
    requires Receiving(y, Pieces(messages, mss), n, |Pieces(messages[..k], mss)|)
    requires PieceCount(|messages[k]|, mss) > y.rcvWnd
    ensures Recv(y, length) == Received(y, if y.rcvQueue == [] then -1 else -2, [])
  {
    hide Pieces, Split, Joined, HeadCount, PeekSize, PieceCount;
    if y.rcvQueue != [] && PeekSize(y.rcvQueue) >= 0 {
      QueueAtMessage(y, messages, k, mss, n);
    }
  }

  // ---- datagrams ----

  function Flattened(packets: seq<Packet>): Packet {
    if packets == [] then [] else packets[0] + Flattened(packets[1..])
  }

  lemma {:induction false} EncodeAppend(p: Packet, s: Segment)
    ensures Encode(p + [s]) == Encode(p) + EncodeHeader(s) + s.data
  {
    hide EncodeHeader;
    if p == [] {
      assert [s][1..] == [];
      assert p + [s] == [s];
    } else {
      assert (p + [s])[1..] == p[1..] + [s];
      EncodeAppend(p[1..], s);
    }
  }

  predicate Fits(s: Segment, mtu: nat) {
    OVERHEAD + |s.data| <= mtu
  }

  // Grouping drops, repeats and reorders nothing, makes no empty datagram, and no datagram
  // over the mtu.
  lemma {:induction false} GroupFacts(pending: Packet, segments: seq<Segment>, mtu: nat)
    requires |Encode(pending)| <= mtu && forall s <- segments :: Fits(s, mtu)
    ensures Flattened(Group(pending, segments, mtu)) == pending + segments
    ensures forall p <- Group(pending, segments, mtu) :: p != [] && |Encode(p)| <= mtu
    decreases |segments|
  {
    hide EncodeHeader;
    if segments != [] {
      var s := segments[0];
      assert Fits(s, mtu);
      assert pending + segments == (pending + [s]) + segments[1..];
      EncodeAppend(pending, s);
      EncodeAppend([], s);
      assert [] + [s] == [s];
      if |Encode(pending)| + OVERHEAD + |s.data| > mtu {
        GroupFacts([s], segments[1..], mtu);
        assert Flattened(Group([s], segments[1..], mtu)) == segments;
        if pending != [] {
          var rest := Group([s], segments[1..], mtu);
          assert ([pending] + rest)[1..] == rest;
        }
      } else {
        GroupFacts(pending + [s], segments[1..], mtu);
      }
    } else if pending != [] {
      assert [pending][1..] == [];
    }
  }

  // No segment that would have fitted begins a new datagram.
  lemma {:induction false} GroupTight(pending: Packet, segments: seq<Segment>, mtu: nat, i: nat)
    requires |Encode(pending)| <= mtu && (forall s <- segments :: Fits(s, mtu)) && i + 1 < |Group(pending, segments, mtu)|
    ensures var ps := Group(pending, segments, mtu);
      ps[i + 1] != [] && |Encode(ps[i])| + OVERHEAD + |ps[i + 1][0].data| > mtu
    decreases |segments|
  {
    hide EncodeHeader;
    var s := segments[0];
    assert Fits(s, mtu);
    EncodeAppend(pending, s);
    EncodeAppend([], s);
    assert [] + [s] == [s];
    if |Encode(pending)| + OVERHEAD + |s.data| > mtu {
      var rest := Group([s], segments[1..], mtu);
      GroupFacts([s], segments[1..], mtu);
      GroupBegins([s], segments[1..], mtu);
      assert Group(pending, segments, mtu) == [pending] + rest;
      if i > 0 {
        GroupTight([s], segments[1..], mtu, i - 1);
      }
    } else {
      GroupTight(pending + [s], segments[1..], mtu, i);
    }
  }

  lemma {:induction false} GroupBegins(pending: Packet, segments: seq<Segment>, mtu: nat)
    requires pending != []
    ensures var ps := Group(pending, segments, mtu); ps != [] && ps[0] != [] && ps[0][0] == pending[0]
    decreases |segments|
  {
    hide Encode;
    if segments != [] && |Encode(pending)| + OVERHEAD + |segments[0].data| <= mtu {
      GroupBegins(pending + [segments[0]], segments[1..], mtu);
    }
  }

  lemma {:induction false} FlattenedMembers(packets: seq<Packet>)
    ensures forall p <- packets, s <- p :: s in Flattened(packets)
  {
    if packets != [] {
      FlattenedMembers(packets[1..]);
      forall p <- packets, s <- p
        ensures s in Flattened(packets)
      {
        assert p == packets[0] || p in packets[1..];
      }
    }
  }

  // No piece of a message is longer than a segment may be.
  lemma {:induction false} SplitSizes(message: seq<Byte>, mss: nat, count: nat)
    requires 0 < count <= 0x100 && (count - 1) * mss <= |message| <= count * mss
    ensures forall q <- Split(message, mss, count) :: |q.data| <= mss
    decreases count
  {
    if count > 1 {
      assert (count - 1) * mss == (count - 2) * mss + mss;
      SplitSizes(message[mss..], mss, count - 1);
    }
  }

  lemma {:induction false} PieceSizes(messages: seq<Message>, mss: nat)
    requires Acceptable(messages, mss)
    ensures forall q <- Pieces(messages, mss) :: |q.data| <= mss
    decreases |messages|
  {
    hide Split;
    if messages != [] {
      var m := messages[|messages| - 1];
      PieceSizes(messages[..|messages| - 1], mss);
      SplitSizes(m, mss, PieceCount(|m|, mss));
    }
  }

  // ---- runs ----

  // An endpoint, the messages its application has sent with success, and those it has taken
  // out.
  datatype Peer = Peer(e: Endpoint, accepted: seq<Message>, delivered: seq<Message>)

  // `ab` holds every datagram ever sent from `a` to `b`. Any of them may arrive, any
  // number of times, in any order; one that never does is lost.
  datatype System = System(a: Peer, b: Peer, ab: set<Packet>, ba: set<Packet>)

  datatype Action = Offer(message: Message) | Take(length: int) | Arrive(packet: Packet) | Emit(env: FlushEnv)

  datatype Move = Move(first: bool, action: Action)

  function Fresh(conv: U32, mss: Mss, rcvWnd: nat): Endpoint {
    Endpoint(conv, mss, rcvWnd, 0, 0, [], [], 0, [], [], [])
  }

  function Start(conv: U32, mssA: Mss, wndA: nat, mssB: Mss, wndB: nat): System {
    System(Peer(Fresh(conv, mssA, wndA), [], []), Peer(Fresh(conv, mssB, wndB), [], []), {}, {})
  }

  function Swap(s: System): System {
    System(s.b, s.a, s.ba, s.ab)
  }

  function Datagrams(r: Flushed): seq<Packet> {
    Group([], r.segments, r.endpoint.mss + OVERHEAD)
  }

  function Sent(r: Flushed): set<Packet> {
    set p | p in Datagrams(r)
  }

  // A step of side `a`.
  function Act(s: System, action: Action): System {
    match action
    case Offer(m) =>
      var (e, code) := Send(s.a.e, m);
      s.(a := Peer(e, if code == 0 then s.a.accepted + [m] else s.a.accepted, s.a.delivered))
    case Take(length) =>
      var r := Recv(s.a.e, length);
      s.(a := Peer(r.endpoint, s.a.accepted, if r.code >= 0 && length >= 0 then s.a.delivered + [r.message] else s.a.delivered))
    case Arrive(p) =>
      if p in s.ba then s.(a := s.a.(e := Input(s.a.e, Encode(p)).0)) else s
    case Emit(env) =>
      var r := Flush(s.a.e, env);
      s.(a := s.a.(e := r.endpoint), ab := s.ab + Sent(r))
  }

  function Step(s: System, move: Move): System {
    if move.first then Act(s, move.action) else Swap(Act(Swap(s), move.action))
  }

  function Run(s: System, moves: seq<Move>): System {
    if moves == [] then s else Step(Run(s, moves[..|moves| - 1]), moves[|moves| - 1])
  }
}
