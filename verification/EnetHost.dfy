// The states of the peers of an ENet host, and the two counters the host keeps of them.

module EnetHost {
  import opened Words

  datatype State =
    | Disconnected | Connecting | AcknowledgingConnect | ConnectionPending | ConnectionSucceeded
    | Connected | DisconnectLater | Disconnecting | AcknowledgingDisconnect | Zombie

  datatype Peer = Peer(state: State, incomingBandwidth: U32, eventData: U32)

  predicate Established(p: Peer) {
    p.state == Connected || p.state == DisconnectLater
  }

  predicate Limited(p: Peer) {
    Established(p) && p.incomingBandwidth != 0
  }

  function CountEstablished(peers: seq<Peer>): nat {
    if peers == [] then 0 else (if Established(peers[0]) then 1 else 0) + CountEstablished(peers[1..])
  }

  function CountLimited(peers: seq<Peer>): nat {
    if peers == [] then 0 else (if Limited(peers[0]) then 1 else 0) + CountLimited(peers[1..])
  }

  // One peer changes.
  lemma {:induction false} CountsChange(peers: seq<Peer>, i: nat, p: Peer)
    requires i < |peers|
    ensures CountEstablished(peers[i := p]) + (if Established(peers[i]) then 1 else 0) == CountEstablished(peers) + if Established(p) then 1 else 0
    ensures CountLimited(peers[i := p]) + (if Limited(peers[i]) then 1 else 0) == CountLimited(peers) + if Limited(p) then 1 else 0
    ensures CountEstablished(peers) >= if Established(peers[i]) then 1 else 0
    ensures CountLimited(peers) >= if Limited(peers[i]) then 1 else 0
  {
    if i == 0 {
      assert peers[0 := p][1..] == peers[1..];
    } else {
      assert peers[i := p][1..] == peers[1..][i - 1 := p];
      CountsChange(peers[1..], i - 1, p);
    }
  }

  lemma {:induction false} CountsNone(peers: seq<Peer>)
    requires forall p <- peers :: p.state == Disconnected
    ensures CountEstablished(peers) == 0 && CountLimited(peers) == 0
  {
    if peers != [] {
      assert peers[0] in peers;
      CountsNone(peers[1..]);
    }
  }

  // ---- where a peer may go ----

  // The steps between states. Nothing but the handshake leads to Connected, and a peer that
  // nobody has been told of is reset instead of becoming a zombie.
  predicate Edge(a: State, b: State) {
    || a == b || b == Disconnected
    || (b == Zombie && a != Disconnected && a != AcknowledgingConnect && a != ConnectionPending)
    || (a == Disconnected && (b == Connecting || b == AcknowledgingConnect))
    || (a == Connecting && (b == Connected || b == ConnectionSucceeded))
    || (a == AcknowledgingConnect && (b == Connected || b == ConnectionPending))
    || ((a == ConnectionPending || a == ConnectionSucceeded) && b == Connected)
    || (a == Connected && b == DisconnectLater)
    || ((a == Connected || a == DisconnectLater) && (b == Disconnecting || b == AcknowledgingDisconnect))
  }

  function ResetPeer(): Peer {
    Peer(Disconnected, 0, 0)
  }

  // The states from Connecting to Zombie are numbered in the order of their declaration.
  predicate FromPendingOn(s: State) {
    s != Disconnected && s != Connecting && s != AcknowledgingConnect
  }

  // What becomes of a peer that has asked to disconnect.
  function AfterDisconnect(p: Peer, acknowledged: bool, data: U32): Peer {
    match p.state
    case Disconnected | Zombie | AcknowledgingDisconnect => p
    case ConnectionSucceeded | Disconnecting | Connecting => p.(state := Zombie, eventData := data)
    case Connected | DisconnectLater => p.(state := if acknowledged then AcknowledgingDisconnect else Zombie, eventData := data)
    case AcknowledgingConnect | ConnectionPending => ResetPeer()
  }

  // What becomes of a peer the application disconnects.
  function AfterOwnDisconnect(p: Peer): Peer {
    match p.state
    case Disconnecting | Disconnected | AcknowledgingDisconnect | Zombie => p
    case Connected | DisconnectLater => p.(state := Disconnecting)
    case Connecting | AcknowledgingConnect | ConnectionPending | ConnectionSucceeded => ResetPeer()
  }

  // What becomes of a peer that has gone: it is reset at once if nobody needs to be told.
  function AfterGone(p: Peer, event: bool): Peer {
    if (p.state == Disconnected || p.state == AcknowledgingConnect || p.state == ConnectionPending) || event then ResetPeer()
    else p.(state := Zombie, eventData := 0)
  }

  function AfterConnect(p: Peer, event: bool): Peer {
    p.(state := if event then Connected else if p.state == Connecting then ConnectionSucceeded else ConnectionPending)
  }

  // What can happen to a peer: its own host connects it or takes up a foreign host's request,
  // commands arrive from the foreign host, the application disconnects it or resets it, its
  // turn comes in the dispatch queue, the acknowledgement of a disconnect command goes out, its
  // last waiting command is gone, or it is given up for lost.
  datatype Event =
    | StartConnect
    | AcceptConnect(incomingBandwidth: U32, data: U32)
    | Verified(good: bool, incomingBandwidth: U32, told: bool)
    | Limit(incomingBandwidth: U32)
    | DisconnectArrived(acknowledged: bool, data: U32)
    | Acknowledged(verifiesConnect: bool, disconnects: bool, outgoing: bool, told: bool)
    | OwnDisconnect
    | DisconnectWhenSent(data: U32, outgoing: bool)
    | DisconnectNow
    | Dispatched
    | DisconnectAcknowledged
    | NothingOutgoing
    | TimedOut(told: bool)

  predicate Allowed(p: Peer, e: Event) {
    match e
    case StartConnect | AcceptConnect(_, _) => p.state == Disconnected
    case DisconnectAcknowledged => p.state == AcknowledgingDisconnect || p.state == Zombie
    case NothingOutgoing | TimedOut(_) => p.state != Disconnected
    case _ => true
  }

  function After(p: Peer, e: Event): Peer {
    match e
    case StartConnect => p.(state := Connecting)
    case AcceptConnect(incomingBandwidth, data) => Peer(AcknowledgingConnect, incomingBandwidth, data)
    case Verified(good, incomingBandwidth, told) =>
      if p.state != Connecting then p
      else if !good then p.(state := Zombie, eventData := 0)
      else AfterConnect(p.(incomingBandwidth := incomingBandwidth), told)
    case Limit(incomingBandwidth) => if Established(p) then p.(incomingBandwidth := incomingBandwidth) else p
    case DisconnectArrived(acknowledged, data) => AfterDisconnect(p, acknowledged, data)
    case Acknowledged(verifiesConnect, disconnects, outgoing, told) =>
      (match p.state
       case AcknowledgingConnect => if verifiesConnect then AfterConnect(p, told) else p
       case Disconnecting => if disconnects then AfterGone(p, told) else p
       case DisconnectLater => if outgoing then p else p.(state := Disconnecting)
       case _ => p)
    case OwnDisconnect => AfterOwnDisconnect(p)
    case DisconnectWhenSent(data, outgoing) =>
      if Established(p) && outgoing then p.(state := DisconnectLater, eventData := data) else AfterOwnDisconnect(p)
    case DisconnectNow => if p.state == Disconnected then p else ResetPeer()
    case Dispatched =>
      if p.state == ConnectionPending || p.state == ConnectionSucceeded then p.(state := Connected)
      else if p.state == Zombie then ResetPeer()
      else p
    case DisconnectAcknowledged => p.(state := Zombie)
    case NothingOutgoing => if p.state == DisconnectLater then p.(state := Disconnecting) else p
    case TimedOut(told) => AfterGone(p, told)
  }

  // Whether the bandwidths of all peers are to be shared out anew.
  predicate Recalculates(p: Peer, e: Event) {
    match e
    case Verified(good, _, _) => p.state == Connecting && good
    case DisconnectArrived(_, _) => p.state == ConnectionPending
    case Acknowledged(verifiesConnect, disconnects, _, _) =>
      (p.state == AcknowledgingConnect && verifiesConnect) || (p.state == Disconnecting && disconnects)
    case Dispatched => p.state == Zombie
    case TimedOut(_) => FromPendingOn(p.state)
    case _ => false
  }

  class Host {
    var peers: seq<Peer>
    var connectedPeers: nat
    var bandwidthLimitedPeers: nat
    var recalculateBandwidthLimits: bool

    // The counters count.
    ghost predicate Valid()
      reads this
    {
      connectedPeers == CountEstablished(peers) && bandwidthLimitedPeers == CountLimited(peers)
    }

    constructor (count: nat)
      ensures Valid() && |peers| == count && forall p <- peers :: p == ResetPeer()
    {
      peers := seq(count, _ => ResetPeer());
      connectedPeers, bandwidthLimitedPeers, recalculateBandwidthLimits := 0, 0, false;
      new;
      CountsNone(peers);
    }

    method OnConnect(i: nat)
      requires i < |peers|
      modifies this`connectedPeers, this`bandwidthLimitedPeers
      ensures connectedPeers == old(connectedPeers) + if Established(peers[i]) then 0 else 1
      ensures bandwidthLimitedPeers == old(bandwidthLimitedPeers) + if Established(peers[i]) || peers[i].incomingBandwidth == 0 then 0 else 1
    {
      if peers[i].state != Connected && peers[i].state != DisconnectLater {
        if peers[i].incomingBandwidth != 0 {
          bandwidthLimitedPeers := bandwidthLimitedPeers + 1;
        }
        connectedPeers := connectedPeers + 1;
      }
    }

    // Neither counter is decremented below zero.
    method OnDisconnect(i: nat)
      requires Valid() && i < |peers|
      modifies this`connectedPeers, this`bandwidthLimitedPeers
      ensures connectedPeers == old(connectedPeers) - if Established(peers[i]) then 1 else 0
      ensures bandwidthLimitedPeers == old(bandwidthLimitedPeers) - if Limited(peers[i]) then 1 else 0
    {
      CountsChange(peers, i, peers[i]);
      if peers[i].state == Connected || peers[i].state == DisconnectLater {
        if peers[i].incomingBandwidth != 0 {
          bandwidthLimitedPeers := bandwidthLimitedPeers - 1;
        }
        connectedPeers := connectedPeers - 1;
      }
    }

    method ChangeState(i: nat, state: State)
      requires Valid() && i < |peers|
      modifies this`peers, this`connectedPeers, this`bandwidthLimitedPeers
      ensures Valid() && peers == old(peers)[i := old(peers)[i].(state := state)]
    {
      CountsChange(peers, i, peers[i].(state := state));
      if state == Connected || state == DisconnectLater {
        OnConnect(i);
      } else {
        OnDisconnect(i);
      }
      peers := peers[i := peers[i].(state := state)];
    }

    method Reset(i: nat)
      requires Valid() && i < |peers|
      modifies this`peers, this`connectedPeers, this`bandwidthLimitedPeers
      ensures Valid() && peers == old(peers)[i := ResetPeer()]
    {
      CountsChange(peers, i, ResetPeer());
      OnDisconnect(i);
      peers := peers[i := ResetPeer()];
    }

    method SetEventData(i: nat, data: U32)
      requires Valid() && i < |peers|
      modifies this`peers
      ensures Valid() && peers == old(peers)[i := old(peers)[i].(eventData := data)]
    {
      CountsChange(peers, i, peers[i].(eventData := data));
      peers := peers[i := peers[i].(eventData := data)];
    }

    // The first free peer starts to connect.
    method Connect() returns (i: nat)
      requires Valid()
      modifies this`peers
      ensures Valid() && i <= |old(peers)|
      ensures forall j | 0 <= j < i :: old(peers)[j].state != Disconnected
      ensures i < |old(peers)| ==> Allowed(old(peers)[i], StartConnect) && peers == old(peers)[i := After(old(peers)[i], StartConnect)]
      ensures i == |old(peers)| ==> peers == old(peers)
    {
      i := 0;
      while i < |peers|
        invariant 0 <= i <= |peers| && forall j | 0 <= j < i :: peers[j].state != Disconnected
      {
        if peers[i].state == Disconnected {
          break;
        }
        i := i + 1;
      }
      if i < |peers| {
        CountsChange(peers, i, peers[i].(state := Connecting));
        peers := peers[i := peers[i].(state := Connecting)];
      }
    }

    // A foreign host asks to connect, and a free peer is found for it.
    method HandleConnect(i: nat, incomingBandwidth: U32, data: U32)
      requires Valid() && i < |peers| && Allowed(peers[i], AcceptConnect(incomingBandwidth, data))
      modifies this`peers
      ensures Valid() && peers == old(peers)[i := After(old(peers)[i], AcceptConnect(incomingBandwidth, data))]
    {
      var p := Peer(AcknowledgingConnect, incomingBandwidth, data);
      CountsChange(peers, i, p);
      peers := peers[i := p];
    }

    // `event` tells whether the application can be told at once.
    method NotifyConnect(i: nat, event: bool)
      requires Valid() && i < |peers| && (peers[i].state == Connecting || peers[i].state == AcknowledgingConnect)
      modifies this
      ensures Valid() && peers == old(peers)[i := AfterConnect(old(peers)[i], event)] && recalculateBandwidthLimits
    {
      recalculateBandwidthLimits := true;
      if event {
        ChangeState(i, Connected);
      } else {
        ChangeState(i, if peers[i].state == Connecting then ConnectionSucceeded else ConnectionPending);
      }
    }

    method NotifyDisconnect(i: nat, event: bool)
      requires Valid() && i < |peers|
      modifies this
      ensures Valid() && peers == old(peers)[i := AfterGone(old(peers)[i], event)]
      ensures recalculateBandwidthLimits == (old(recalculateBandwidthLimits) || FromPendingOn(old(peers)[i].state))
    {
      if FromPendingOn(peers[i].state) {
        recalculateBandwidthLimits := true;
      }
      var s := peers[i].state;
      if s != Connecting && (s == Disconnected || s == AcknowledgingConnect || s == ConnectionPending) {
        Reset(i);
      } else if event {
        Reset(i);
      } else {
        SetEventData(i, 0);
        ChangeState(i, Zombie);
      }
    }

    // The foreign host confirms the connection; a bad confirmation ends it.
    method HandleVerifyConnect(i: nat, good: bool, incomingBandwidth: U32, event: bool) returns (code: int)
      requires Valid() && i < |peers|
      modifies this
      ensures Valid()
      ensures code == if old(peers)[i].state == Connecting && !good then -1 else 0
      ensures var e := Verified(good, incomingBandwidth, event);
        && peers == old(peers)[i := After(old(peers)[i], e)]
        && recalculateBandwidthLimits == (old(recalculateBandwidthLimits) || Recalculates(old(peers)[i], e))
    {
      if peers[i].state != Connecting {
        return 0;
      }
      if !good {
        SetEventData(i, 0);
        ChangeState(i, Zombie);
        return -1;
      }
      CountsChange(peers, i, peers[i].(incomingBandwidth := incomingBandwidth));
      peers := peers[i := peers[i].(incomingBandwidth := incomingBandwidth)];
      NotifyConnect(i, event);
      code := 0;
    }

    method HandleBandwidthLimit(i: nat, incomingBandwidth: U32) returns (code: int)
      requires Valid() && i < |peers|
      modifies this`peers, this`bandwidthLimitedPeers
      ensures Valid() && code == if Established(old(peers)[i]) then 0 else -1
      ensures peers == old(peers)[i := After(old(peers)[i], Limit(incomingBandwidth))]
    {
      if peers[i].state != Connected && peers[i].state != DisconnectLater {
        return -1;
      }
      CountsChange(peers, i, peers[i].(incomingBandwidth := incomingBandwidth));
      if peers[i].incomingBandwidth != 0 {
        bandwidthLimitedPeers := bandwidthLimitedPeers - 1;
      }
      peers := peers[i := peers[i].(incomingBandwidth := incomingBandwidth)];
      if peers[i].incomingBandwidth != 0 {
        bandwidthLimitedPeers := bandwidthLimitedPeers + 1;
      }
      code := 0;
    }

    method HandleDisconnect(i: nat, acknowledged: bool, data: U32)
      requires Valid() && i < |peers|
      modifies this
      ensures var e := DisconnectArrived(acknowledged, data);
        && Valid() && peers == old(peers)[i := After(old(peers)[i], e)]
        && recalculateBandwidthLimits == (old(recalculateBandwidthLimits) || Recalculates(old(peers)[i], e))
    {
      var s := peers[i].state;
      if s == Disconnected || s == Zombie || s == AcknowledgingDisconnect {
        return;
      }
      if s == ConnectionSucceeded || s == Disconnecting || s == Connecting {
        ChangeState(i, Zombie);
      } else if s != Connected && s != DisconnectLater {
        if s == ConnectionPending {
          recalculateBandwidthLimits := true;
        }
        Reset(i);
      } else if acknowledged {
        ChangeState(i, AcknowledgingDisconnect);
      } else {
        ChangeState(i, Zombie);
      }
      if peers[i].state != Disconnected {
        SetEventData(i, data);
      }
    }

    // The application disconnects a peer.
    method Disconnect(i: nat)
      requires Valid() && i < |peers|
      modifies this`peers, this`connectedPeers, this`bandwidthLimitedPeers
      ensures Valid() && peers == old(peers)[i := After(old(peers)[i], Event.OwnDisconnect)]
    {
      var s := peers[i].state;
      if s == Disconnecting || s == Disconnected || s == AcknowledgingDisconnect || s == Zombie {
        return;
      }
      if s == Connected || s == DisconnectLater {
        CountsChange(peers, i, peers[i].(state := Disconnecting));
        OnDisconnect(i);
        peers := peers[i := peers[i].(state := Disconnecting)];
      } else {
        Reset(i);
      }
    }

    method DisconnectNow(i: nat)
      requires Valid() && i < |peers|
      modifies this`peers, this`connectedPeers, this`bandwidthLimitedPeers
      ensures Valid()
      ensures peers == old(peers)[i := After(old(peers)[i], Event.DisconnectNow)]
    {
      if peers[i].state != Disconnected {
        Reset(i);
      }
    }

    method DisconnectWhenSent(i: nat, data: U32, outgoing: bool)
      requires Valid() && i < |peers|
      modifies this`peers, this`connectedPeers, this`bandwidthLimitedPeers
      ensures Valid()
      ensures peers == old(peers)[i := After(old(peers)[i], Event.DisconnectWhenSent(data, outgoing))]
    {
      if (peers[i].state == Connected || peers[i].state == DisconnectLater) && outgoing {
        var p := peers[i].(state := DisconnectLater, eventData := data);
        CountsChange(peers, i, p);
        peers := peers[i := p];
      } else {
        Disconnect(i);
      }
    }

    // An acknowledgement arrives for a command of the kind told.
    method HandleAcknowledge(i: nat, verifiesConnect: bool, disconnects: bool, outgoing: bool, event: bool) returns (code: int)
      requires Valid() && i < |peers|
      modifies this
      ensures Valid()
      ensures var p := old(peers)[i];
        code == if (p.state == AcknowledgingConnect && !verifiesConnect) || (p.state == Disconnecting && !disconnects) then -1 else 0
      ensures var e := Acknowledged(verifiesConnect, disconnects, outgoing, event);
        && peers == old(peers)[i := After(old(peers)[i], e)]
        && recalculateBandwidthLimits == (old(recalculateBandwidthLimits) || Recalculates(old(peers)[i], e))
    {
      code := 0;
      match peers[i].state
      case AcknowledgingConnect =>
        if !verifiesConnect {
          return -1;
        }
        NotifyConnect(i, event);
      case Disconnecting =>
        if !disconnects {
          return -1;
        }
        NotifyDisconnect(i, event);
      case DisconnectLater =>
        if !outgoing {
          Disconnect(i);
        }
      case _ =>
    }

    // A peer's turn in the dispatch queue, when it has news of its state.
    method DispatchStateEvent(i: nat) returns (connected: bool, disconnected: bool)
      requires Valid() && i < |peers|
      modifies this
      ensures Valid()
      ensures var p := old(peers)[i];
        && connected == (p.state == ConnectionPending || p.state == ConnectionSucceeded) && disconnected == (p.state == Zombie)
        && peers == old(peers)[i := After(p, Dispatched)]
        && recalculateBandwidthLimits == (old(recalculateBandwidthLimits) || Recalculates(p, Dispatched))
    {
      connected, disconnected := false, false;
      match peers[i].state
      case ConnectionPending | ConnectionSucceeded =>
        ChangeState(i, Connected);
        connected := true;
      case Zombie =>
        recalculateBandwidthLimits := true;
        Reset(i);
        disconnected := true;
      case _ =>
    }

    // An acknowledgement of a disconnect command has gone out.
    method DisconnectAcknowledged(i: nat)
      requires Valid() && i < |peers| && Allowed(peers[i], Event.DisconnectAcknowledged)
      modifies this`peers, this`connectedPeers, this`bandwidthLimitedPeers
      ensures Valid() && peers == old(peers)[i := After(old(peers)[i], Event.DisconnectAcknowledged)]
    {
      ChangeState(i, Zombie);
    }

    // The last of the commands that a disconnection waited for is gone.
    method NothingOutgoing(i: nat)
      requires Valid() && i < |peers| && Allowed(peers[i], Event.NothingOutgoing)
      modifies this`peers, this`connectedPeers, this`bandwidthLimitedPeers
      ensures Valid() && peers == old(peers)[i := After(old(peers)[i], Event.NothingOutgoing)]
    {
      if peers[i].state == DisconnectLater {
        Disconnect(i);
      }
    }

    // A command has been sent too often without an acknowledgement.
    method GiveUp(i: nat, event: bool)
      requires Valid() && i < |peers| && Allowed(peers[i], TimedOut(event))
      modifies this
      ensures Valid() && peers == old(peers)[i := After(old(peers)[i], TimedOut(event))]
      ensures recalculateBandwidthLimits == (old(recalculateBandwidthLimits) || Recalculates(old(peers)[i], TimedOut(event)))
    {
      NotifyDisconnect(i, event);
    }
  }

  // ---- whole runs ----

  // Event `e` happens to peer `i`.
  datatype Occurrence = Occurrence(i: nat, e: Event)

  predicate Step(peers: seq<Peer>, o: Occurrence, peers': seq<Peer>) {
    o.i < |peers| && Allowed(peers[o.i], o.e) && peers' == peers[o.i := After(peers[o.i], o.e)]
  }

  // `trace` goes through the occurrences, one state more than there are occurrences.
  ghost predicate Run(trace: seq<seq<Peer>>, events: seq<Occurrence>) {
    && |trace| == |events| + 1 && (forall p <- trace[0] :: p == ResetPeer())
    && forall t | 0 <= t < |events| :: Step(trace[t], events[t], trace[t + 1])
  }

  predicate Leads(p: Peer, e: Event, b: State) {
    Allowed(p, e) && After(p, e).state == b
  }

  // What takes a peer along an edge.
  function Along(a: State, b: State): Event {
    if a == b then Limit(0)
    else
      match b
      case Disconnected => DisconnectNow
      case Connecting => StartConnect
      case AcknowledgingConnect => AcceptConnect(0, 0)
      case ConnectionPending => Event.Acknowledged(true, false, false, false)
      case ConnectionSucceeded => Verified(true, 0, false)
      case Connected =>
        if a == Connecting then Verified(true, 0, true)
        else if a == AcknowledgingConnect then Event.Acknowledged(true, false, false, true)
        else Dispatched
      case DisconnectLater => DisconnectWhenSent(0, true)
      case Disconnecting => OwnDisconnect
      case AcknowledgingDisconnect => DisconnectArrived(true, 0)
      case Zombie => TimedOut(false)
  }

  // The edges are just the steps that something can cause.
  lemma EdgesExact(a: State, b: State)
    ensures Edge(a, b) <==> exists p: Peer, e: Event :: p.state == a && Leads(p, e, b)
  {
    if Edge(a, b) {
      assert Leads(Peer(a, 0, 0), Along(a, b), b);
    }
  }

  // The events that begin and complete a handshake.
  predicate Begins(p: Peer, e: Event) {
    p.state == Disconnected && (e.StartConnect? || e.AcceptConnect?)
  }

  predicate Completes(p: Peer, e: Event) {
    || (p.state == Connecting && e.Verified? && e.good)
    || (p.state == AcknowledgingConnect && e.Acknowledged? && e.verifiesConnect)
  }

  predicate InHandshake(s: State) {
    s == Connecting || s == AcknowledgingConnect
  }

  predicate PastHandshake(s: State) {
    s == ConnectionPending || s == ConnectionSucceeded || s == Connected || s == DisconnectLater
  }

  lemma OnlyByHandshake(p: Peer, e: Event)
    requires Allowed(p, e)
    ensures PastHandshake(After(p, e).state) ==> PastHandshake(p.state) || Completes(p, e)
    ensures InHandshake(After(p, e).state) ==> After(p, e).state == p.state || Begins(p, e)
    ensures Completes(p, e) ==> InHandshake(p.state)
  {
  }

  lemma {:induction false} RunSize(trace: seq<seq<Peer>>, events: seq<Occurrence>, t: nat)
    requires Run(trace, events) && t < |trace|
    ensures |trace[t]| == |trace[0]|
  {
    if t > 0 {
      RunSize(trace, events, t - 1);
      assert Step(trace[t - 1], events[t - 1], trace[t]);
    }
  }

  lemma FirstFree(trace: seq<seq<Peer>>, events: seq<Occurrence>, i: nat)
    requires Run(trace, events) && i < |trace[0]|
    ensures trace[0][i].state == Disconnected
  {
    assert trace[0][i] in trace[0];
  }

  // When a peer that is past its handshake completed it.
  lemma {:induction false} Completed(trace: seq<seq<Peer>>, events: seq<Occurrence>, n: nat, i: nat) returns (t: nat)
    requires Run(trace, events) && n < |trace| && i < |trace[n]| && PastHandshake(trace[n][i].state)
    ensures t < n && i < |trace[t]| && events[t].i == i && Completes(trace[t][i], events[t].e)
    ensures forall u | t < u <= n :: i < |trace[u]| && PastHandshake(trace[u][i].state)
    decreases n
  {
    RunSize(trace, events, n);
    if n == 0 {
      FirstFree(trace, events, i);
    } else {
      var o := events[n - 1];
      assert Step(trace[n - 1], o, trace[n]);
      OnlyByHandshake(trace[n - 1][o.i], o.e);
      if o.i == i && Completes(trace[n - 1][i], o.e) {
        t := n - 1;
      } else {
        t := Completed(trace, events, n - 1, i);
      }
    }
  }

  // When a peer that is in its handshake began it.
  lemma {:induction false} Begun(trace: seq<seq<Peer>>, events: seq<Occurrence>, n: nat, i: nat) returns (t: nat)
    requires Run(trace, events) && n < |trace| && i < |trace[n]| && InHandshake(trace[n][i].state)
    ensures t < n && i < |trace[t]| && events[t].i == i && Begins(trace[t][i], events[t].e)
    ensures forall u | t < u <= n :: i < |trace[u]| && trace[u][i].state == trace[n][i].state
    decreases n
  {
    RunSize(trace, events, n);
    if n == 0 {
      FirstFree(trace, events, i);
    } else {
      var o := events[n - 1];
      assert Step(trace[n - 1], o, trace[n]);
      OnlyByHandshake(trace[n - 1][o.i], o.e);
      if o.i == i && Begins(trace[n - 1][i], o.e) {
        t := n - 1;
      } else {
        t := Begun(trace, events, n - 1, i);
      }
    }
  }

  // A peer that is established has gone through a whole handshake, begun when its slot was
  // free and completed after that, and has been neither reset nor given up since.
  lemma HandshakeFirst(trace: seq<seq<Peer>>, events: seq<Occurrence>, n: nat, i: nat) returns (began: nat, completed: nat)
    requires Run(trace, events) && n < |trace| && i < |trace[n]| && PastHandshake(trace[n][i].state)
    ensures began < completed < n && events[began].i == events[completed].i == i
    ensures i < |trace[began]| && Begins(trace[began][i], events[began].e)
    ensures i < |trace[completed]| && Completes(trace[completed][i], events[completed].e)
    ensures forall u | began < u <= completed :: i < |trace[u]| && InHandshake(trace[u][i].state)
    ensures forall u | completed < u <= n :: i < |trace[u]| && PastHandshake(trace[u][i].state)
  {
    completed := Completed(trace, events, n, i);
    OnlyByHandshake(trace[completed][i], events[completed].e);
    began := Begun(trace, events, completed, i);
  }
}
