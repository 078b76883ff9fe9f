// A KCP endpoint as the C code runs it: fields updated in place, queues walked by loops, a
// growing array of acknowledgements and one buffer in which datagrams are put together.

module Kcp {
  import opened Words
  import opened KcpWire
  import opened KcpSpec
  import opened KcpProtocol
  import opened KcpSystem

  const PROBE_INIT: nat := 7000
  const PROBE_LIMIT: nat := 120000
  const RTO_MAX: nat := 60000
  const THRESH_MIN: nat := 2

  // The first `n` number and time pairs of the acknowledgement array.
  function Pairs(s: seq<U32>, n: nat): (r: seq<(U32, U32)>)
    requires 2 * n <= |s|
    ensures |r| == n
  {
    if n == 0 then [] else Pairs(s, n - 1) + [(s[2 * n - 2], s[2 * n - 1])]
  }

  lemma RemoveStep(buf: seq<Flight>, i: nat, sn: U32)
    requires i < |buf|
    ensures Remove(buf[i..], sn) ==
      if sn == buf[i].seg.sn then buf[i + 1..] else if TimeDiff(sn, buf[i].seg.sn) < 0 then buf[i..] else [buf[i]] + Remove(buf[i + 1..], sn)
  {
    hide TimeDiff;
    assert buf[i..][1..] == buf[i + 1..];
  }

  lemma RemoveNothing(sn: U32)
    ensures Remove([], sn) == []
  {
  }

  lemma SendableWithout(queue: seq<Piece>, buf: seq<Flight>, i: nat, mss: nat)
    requires Sendable(queue, buf, mss) && i < |buf|
    ensures Sendable(queue, buf[..i] + buf[i + 1..], mss)
  {
  }

  lemma {:induction false} PairsSame(s: seq<U32>, t: seq<U32>, n: nat)
    requires 2 * n <= |s| && 2 * n <= |t| && forall k | 0 <= k < 2 * n :: s[k] == t[k]
    ensures Pairs(s, n) == Pairs(t, n)
  {
    if n > 0 {
      PairsSame(s, t, n - 1);
    }
  }

  lemma PairsPush(s: seq<U32>, t: seq<U32>, n: nat)
    requires 2 * n <= |s| && 2 * n + 2 <= |t| && forall k | 0 <= k < 2 * n :: s[k] == t[k]
    ensures Pairs(t, n + 1) == Pairs(s, n) + [(t[2 * n], t[2 * n + 1])]
  {
    PairsSame(s, t, n);
  }

  lemma {:induction false} PairsAt(s: seq<U32>, n: nat, i: nat)
    requires 2 * n <= |s| && i < n
    ensures Pairs(s, n)[i] == (s[2 * i], s[2 * i + 1])
  {
    if i < n - 1 {
      PairsAt(s, n - 1, i);
    }
  }

  // No piece or segment waiting to be sent is longer than a segment may be.
  predicate Sendable(queue: seq<Piece>, buf: seq<Flight>, mss: nat) {
    (forall p <- queue :: |p.data| <= mss) && forall g <- buf :: |g.seg.data| <= mss
  }

  lemma HeadStep(q: seq<Segment>, i: nat, n: nat)
    requires i < |q| && i < n <= |q|
    ensures q[i..][0] == q[i] && q[i..][1..] == q[i + 1..]
    ensures Joined(q[i..n]) == q[i].data + Joined(q[i + 1..n])
  {
    assert q[i..n][1..] == q[i + 1..n];
  }

  function AtLeast(least: nat, n: nat): nat {
    if n < least then least else n
  }

  // What a datagram tells beside its data: the window of the other side, and whether it asks
  // for that of this side.
  function Told(conv: U32, d: seq<Byte>, wnd: U32, tell: bool): (U32, bool)
    decreases |d|
  {
    if |d| < OVERHEAD then (wnd, tell)
    else
      var (s, length) := DecodeHeader(d);
      if s.conv != conv || |d| - OVERHEAD < length || !KnownCommand(s.cmd) then (wnd, tell)
      else Told(conv, d[OVERHEAD + length..], s.wnd, tell || s.cmd == CMD_WASK)
  }

  lemma ToldStep(conv: U32, d: seq<Byte>, wnd: U32, tell: bool)
    ensures Told(conv, d, wnd, tell) ==
      if |d| < OVERHEAD then (wnd, tell)
      else
        var (s, length) := DecodeHeader(d);
        if s.conv != conv || |d| - OVERHEAD < length || !KnownCommand(s.cmd) then (wnd, tell)
        else Told(conv, d[OVERHEAD + length..], s.wnd, tell || s.cmd == CMD_WASK)
  {
    hide DecodeHeader;
  }

  lemma InputStep(e: Endpoint, d: seq<Byte>, m: MaxAck)
    ensures InputFrom(e, d, m) ==
      if |d| < OVERHEAD then (FinishInput(e, m), 0)
      else
        var (s, length) := DecodeHeader(d);
        if s.conv != e.conv then (e, -1)
        else if |d| - OVERHEAD < length then (e, -2)
        else if !KnownCommand(s.cmd) then (e, -3)
        else
          var s' := s.(data := d[OVERHEAD..OVERHEAD + length]);
          InputFrom(InputSegment(e, s'), d[OVERHEAD + length..], Later(m, s'))
  {
    hide DecodeHeader, InputSegment, Later;
  }

  // The last segment of a datagram tells the window, and any of them may ask.
  lemma {:induction false} ToldByLast(conv: U32, p: Packet, wnd: U32, tell: bool)
    requires Encodable(p) && p != [] && forall s <- p :: s.conv == conv && KnownCommand(s.cmd)
    ensures Told(conv, Encode(p), wnd, tell) == (p[|p| - 1].wnd, tell || exists s <- p :: s.cmd == CMD_WASK)
    decreases |p|
  {
    hide EncodeHeader, DecodeHeader;
    var s, rest := p[0], Encode(p[1..]);
    assert s in p && p == [s] + p[1..];
    var d := Encode(p);
    assert d == EncodeHeader(s) + (s.data + rest);
    HeaderInverse(s, s.data + rest);
    assert d[OVERHEAD + |s.data|..] == rest;
    if |p| > 1 {
      ToldByLast(conv, p[1..], s.wnd, tell || s.cmd == CMD_WASK);
    } else {
      assert rest == [];
    }
  }

  ghost predicate AnyCause(buf: seq<Flight>, env: FlushEnv, cause: Cause) {
    exists f <- buf :: Due(f, env) == cause
  }

  lemma CauseMore(buf: seq<Flight>, i: nat, env: FlushEnv, cause: Cause)
    requires i < |buf|
    ensures AnyCause(buf[..i + 1], env, cause) <==> AnyCause(buf[..i], env, cause) || Due(buf[i], env) == cause
    ensures !AnyCause([], env, cause)
  {
    hide Due;
    assert buf[..i + 1] == buf[..i] + [buf[i]];
    if AnyCause(buf[..i], env, cause) {
      var f :| f in buf[..i] && Due(f, env) == cause;
      assert f in buf[..i + 1];
    }
    if Due(buf[i], env) == cause {
      assert buf[i] in buf[..i + 1];
    }
  }

  lemma NoCause(env: FlushEnv, cause: Cause)
    ensures !AnyCause([], env, cause)
  {
  }

  class Kcp {
    const conv: U32
    const mtu: nat
    const mss: Mss
    const buffer: array<Byte>
    var sndUna: U32
    var sndNxt: U32
    var rcvNxt: U32
    var sndQueue: seq<Piece>
    var sndBuf: seq<Flight>
    var rcvBuf: seq<Segment>
    var rcvQueue: seq<Segment>
    var ackList: array<U32>
    var ackCount: nat
    var sndWnd: U32
    var rcvWnd: nat
    var rmtWnd: U32
    var cwnd: U32
    var incr: U32
    var ssthresh: U32
    var rxSrtt: nat
    var rxRttval: nat
    var rxRto: U32
    var rxMinrto: U32
    var current: U32
    var interval: U32
    var tsFlush: U32
    var updated: bool
    var nodelay: bool
    var nocwnd: bool
    var fastresend: U32
    var askSend: bool
    var askTell: bool
    var tsProbe: U32
    var probeWait: U32
    var wire: seq<seq<Byte>>

    ghost predicate Valid()
      reads this`sndQueue, this`sndBuf, this`ackList, this`ackCount
    {
      && mtu == mss + OVERHEAD && buffer.Length == (mtu + OVERHEAD) * 3
      && 2 * ackCount <= ackList.Length && (ackList as object) != buffer
      && Sendable(sndQueue, sndBuf, mss)
    }

    ghost function Acks(): seq<(U32, U32)>
      requires 2 * ackCount <= ackList.Length
      reads this`ackList, this`ackCount, ackList
    {
      Pairs(ackList[..], ackCount)
    }

    ghost function Model(): Endpoint
      requires 2 * ackCount <= ackList.Length
      reads this, ackList
    {
      Endpoint(conv, mss, rcvWnd, sndUna, sndNxt, sndQueue, sndBuf, rcvNxt, rcvBuf, rcvQueue, Acks())
    }

    // A new endpoint, its mtu and receive window set before it is used.
    constructor (conv: U32, mtu: nat, rcvWnd: nat)
      requires 50 <= mtu < WORD
      ensures Valid() && Model() == Fresh(conv, mtu - OVERHEAD, rcvWnd) && wire == [] && fresh(ackList) && fresh(buffer)
    {
      this.conv, this.mtu, mss, this.rcvWnd := conv, mtu, mtu - OVERHEAD, rcvWnd;
      buffer := new Byte[(mtu + OVERHEAD) * 3];
      sndUna, sndNxt, rcvNxt := 0, 0, 0;
      sndQueue, sndBuf, rcvBuf, rcvQueue, wire := [], [], [], [], [];
      ackList, ackCount := new U32[0], 0;
      sndWnd, rmtWnd, cwnd, incr, ssthresh := 32, 32, 0, 0, 2;
      rxSrtt, rxRttval, rxRto, rxMinrto := 0, 0, 200, 100;
      current, interval, tsFlush, updated := 0, 100, 100, false;
      nodelay, nocwnd, fastresend := false, false, 0;
      askSend, askTell, tsProbe, probeWait := false, false, 0, 0;
    }

    // ---- the application's side ----

    method PeekSize() returns (size: int)
      ensures size == KcpSpec.PeekSize(rcvQueue)
    {
      if rcvQueue == [] {
        return -1;
      }
      if rcvQueue[0].frg == 0 {
        return |rcvQueue[0].data|;
      }
      if |rcvQueue| < rcvQueue[0].frg as int + 1 {
        return -1;
      }
      size := 0;
      var i := 0;
      ghost var n := HeadCount(rcvQueue);
      assert rcvQueue[0..] == rcvQueue;
      while i < |rcvQueue|
        invariant 0 <= i <= n && i + HeadCount(rcvQueue[i..]) == n
        invariant size + |Joined(rcvQueue[i..n])| == |Joined(rcvQueue[..n])|
      {
        HeadStep(rcvQueue, i, n);
        size := size + |rcvQueue[i].data|;
        i := i + 1;
        if rcvQueue[i - 1].frg == 0 {
          break;
        }
      }
    }

    // Joins the pieces of the first message, taking them off the queue unless it only peeks.
    method Merge(peek: bool) returns (message: seq<Byte>)
      modifies this`rcvQueue
      ensures var n := HeadCount(old(rcvQueue));
        message == Joined(old(rcvQueue)[..n]) && rcvQueue == if peek then old(rcvQueue) else old(rcvQueue)[n..]
    {
      message := [];
      var p := 0;
      ghost var q, n, i: nat := rcvQueue, HeadCount(rcvQueue), 0;
      assert q[0..] == q;
      while p < |rcvQueue|
        invariant i <= n <= |q| && i + HeadCount(q[i..]) == n
        invariant 0 <= p <= |rcvQueue| && rcvQueue[p..] == q[i..]
        invariant if peek then p == i && rcvQueue == q else p == 0
        invariant message + Joined(q[i..n]) == Joined(q[..n])
        decreases |q| - i
      {
        HeadStep(q, i, n);
        var seg := rcvQueue[p];
        assert seg == q[i];
        ConcatAssociative(message, seg.data, Joined(q[i + 1..n]));
        message := message + seg.data;
        if peek {
          p := p + 1;
        } else {
          rcvQueue := rcvQueue[1..];
        }
        i := i + 1;
        if seg.frg == 0 {
          break;
        }
      }
    }

    // Moves what is next in order from the reordering buffer to the receive queue.
    method MoveAvailable()
      requires 2 * ackCount <= ackList.Length
      modifies this`rcvQueue, this`rcvBuf, this`rcvNxt
      ensures Model() == Advance(old(Model()))
    {
      while rcvBuf != []
        invariant Advance(Model()) == Advance(old(Model()))
        decreases |rcvBuf|
      {
        if rcvBuf[0].sn == rcvNxt && |rcvQueue| < rcvWnd {
          rcvQueue, rcvBuf, rcvNxt := rcvQueue + [rcvBuf[0]], rcvBuf[1..], (rcvNxt + 1) % WORD;
        } else {
          break;
        }
      }
    }

    // The assertion of the C code, that the message has the size announced, is proved.
    method Recv(length: int) returns (code: int, message: seq<Byte>)
      requires Valid()
      modifies this`rcvQueue, this`rcvBuf, this`rcvNxt, this`askTell
      ensures Valid() && KcpSpec.Recv(old(Model()), length) == Received(Model(), code, message)
    {
      if rcvQueue == [] {
        return -1, [];
      }
      var peek := length < 0;
      var room := if length < 0 then -length else length;
      var size := PeekSize();
      if size < 0 {
        return -2, [];
      }
      if size > room {
        return -3, [];
      }
      var recover := |rcvQueue| >= rcvWnd;
      PeekIsJoined(rcvQueue);
      message := Merge(peek);
      assert |message| == size;
      MoveAvailable();
      if |rcvQueue| < rcvWnd && recover {
        askTell := true;
      }
      code := |message|;
    }

    method Send(message: seq<Byte>) returns (code: int)
      requires Valid()
      modifies this`sndQueue
      ensures Valid() && (Model(), code) == KcpSpec.Send(old(Model()), message)
    {
      hide Split;
      var count := 1;
      if |message| > mss {
        count := (|message| + mss - 1) / mss;
      }
      assert count == PieceCount(|message|, mss);
      if count > 255 {
        return -2;
      }
      var rest := message;
      ghost var goal := sndQueue + Split(message, mss, count);
      var i := 0;
      while i < count
        invariant 0 <= i <= count && Sendable(sndQueue, sndBuf, mss)
        invariant i < count ==> (count - i - 1) * mss <= |rest| <= (count - i) * mss
        invariant if i < count then sndQueue + Split(rest, mss, count - i) == goal else sndQueue == goal
      {
        SplitStep(rest, mss, count - i);
        var size := if |rest| > mss then mss else |rest|;
        ghost var q := sndQueue;
        sndQueue := sndQueue + [Piece((count - i - 1) as Byte, rest[..size])];
        rest := rest[size..];
        i := i + 1;
        if i < count {
          ConcatAssociative(q, [sndQueue[|q|]], Split(rest, mss, count - i));
        }
      }
      code := 0;
    }

    // ---- a datagram arrives ----

    // Smooths the round-trip time; the timeout stays within its bounds.
    method UpdateAck(rtt: nat)
      modifies this`rxSrtt, this`rxRttval, this`rxRto
      ensures rxMinrto <= RTO_MAX ==> rxMinrto <= rxRto <= RTO_MAX
      ensures old(rxSrtt) == 0 ==> rxSrtt == rtt && rxRttval == rtt / 2
      ensures old(rxSrtt) > 0 ==>
        && rxSrtt == AtLeast(1, (7 * old(rxSrtt) + rtt) / 8)
        && rxRttval == (3 * old(rxRttval) + if rtt >= old(rxSrtt) then rtt - old(rxSrtt) else old(rxSrtt) - rtt) / 4
      ensures rxRto == Min(AtLeast(rxMinrto, (rxSrtt + AtLeast(interval, 4 * rxRttval % WORD)) % WORD), RTO_MAX)
    {
      if rxSrtt == 0 {
        rxSrtt := rtt;
        rxRttval := rtt / 2;
      } else {
        var delta := if rtt >= rxSrtt then rtt - rxSrtt else rxSrtt - rtt;
        rxRttval := (3 * rxRttval + delta) / 4;
        rxSrtt := (7 * rxSrtt + rtt) / 8;
        if rxSrtt < 1 {
          rxSrtt := 1;
        }
      }
      var spread := 4 * rxRttval % WORD;
      var rto := (rxSrtt + if interval >= spread then interval else spread) % WORD;
      rxRto := Min(if rxMinrto >= rto then rxMinrto else rto, RTO_MAX);
    }

    method ShrinkBuf()
      requires 2 * ackCount <= ackList.Length
      modifies this`sndUna
      ensures Model() == Shrink(old(Model()))
    {
      if sndBuf != [] {
        sndUna := sndBuf[0].seg.sn;
      } else {
        sndUna := sndNxt;
      }
    }

    method ParseUna(una: U32)
      requires Valid()
      modifies this`sndBuf
      ensures Valid() && sndBuf == DropAcknowledged(old(sndBuf), una)
    {
      hide TimeDiff;
      while sndBuf != []
        invariant Sendable(sndQueue, sndBuf, mss)
        invariant DropAcknowledged(sndBuf, una) == DropAcknowledged(old(sndBuf), una)
        decreases |sndBuf|
      {
        if TimeDiff(una, sndBuf[0].seg.sn) > 0 {
          sndBuf := sndBuf[1..];
        } else {
          break;
        }
      }
    }

    method AcceptUna(una: U32)
      requires Valid()
      modifies this`sndBuf, this`sndUna
      ensures Valid() && var e := old(Model()); Model() == Shrink(e.(sndBuf := DropAcknowledged(e.sndBuf, una)))
    {
      hide DropAcknowledged, Pairs, Sendable;
      ParseUna(una);
      ShrinkBuf();
    }

    method ParseAck(sn: U32)
      requires Valid()
      modifies this`sndBuf
      ensures Valid() && Model() == KcpSpec.ParseAck(old(Model()), sn)
    {
      hide TimeDiff, Remove, Sendable;
      if TimeDiff(sn, sndUna) < 0 || TimeDiff(sn, sndNxt) >= 0 {
        return;
      }
      TakeOut(sn);
    }

    method TakeOut(sn: U32)
      requires Valid()
      modifies this`sndBuf
      ensures Valid() && sndBuf == Remove(old(sndBuf), sn)
    {
      hide TimeDiff, Remove, Sendable, Kcp.Acks, Kcp.Model;
      var i := 0;
      assert sndBuf[0..] == sndBuf && sndBuf[..0] == [] && [] + Remove(sndBuf, sn) == Remove(sndBuf, sn);
      while i < |sndBuf|
        invariant 0 <= i <= |sndBuf| && sndBuf == old(sndBuf)
        invariant Remove(sndBuf, sn) == sndBuf[..i] + Remove(sndBuf[i..], sn)
      {
        RemoveStep(sndBuf, i, sn);
        if sn == sndBuf[i].seg.sn {
          SendableWithout(sndQueue, sndBuf, i, mss);
          sndBuf := sndBuf[..i] + sndBuf[i + 1..];
          return;
        }
        if TimeDiff(sn, sndBuf[i].seg.sn) < 0 {
          break;
        }
        i := i + 1;
        TakeOneMore(sndBuf, i - 1, Remove(sndBuf[i..], sn));
      }
      RemoveNothing(sn);
      assert sndBuf == sndBuf[..i] + sndBuf[i..];
    }

    method ParseFastAck(sn: U32)
      requires Valid()
      modifies this`sndBuf
      ensures Valid() && Model() == KcpSpec.ParseFastAck(old(Model()), sn)
    {
      hide TimeDiff;
      if TimeDiff(sn, sndUna) < 0 || TimeDiff(sn, sndNxt) >= 0 {
        return;
      }
      var i := 0;
      assert sndBuf[0..] == sndBuf;
      while i < |sndBuf|
        invariant 0 <= i <= |sndBuf| == |old(sndBuf)| && sndBuf[i..] == old(sndBuf)[i..]
        invariant Sendable(sndQueue, sndBuf, mss)
        invariant sndBuf[..i] + CountSkipped(sndBuf[i..], sn) == CountSkipped(old(sndBuf), sn)
      {
        ghost var buf, i0 := sndBuf, i;
        assert buf[i..][0] == buf[i] && buf[i..][1..] == buf[i + 1..] == old(sndBuf)[i + 1..];
        if TimeDiff(sn, sndBuf[i].seg.sn) < 0 {
          break;
        } else if sn != sndBuf[i].seg.sn {
          sndBuf := sndBuf[i := sndBuf[i].(fastack := (sndBuf[i].fastack + 1) % WORD)];
        }
        i := i + 1;
        assert sndBuf[..i0] == buf[..i0] && sndBuf[i..] == buf[i..];
        TakeOneMore(sndBuf, i0, CountSkipped(sndBuf[i..], sn));
      }
      assert sndBuf == sndBuf[..i] + sndBuf[i..];
    }

    // Appends to the acknowledgement array, moving it to a larger block when it is full.
    method AckPush(sn: U32, ts: U32)
      requires Valid()
      modifies this`ackList, this`ackCount, ackList
      ensures Valid() && Acks() == old(Acks()) + [(sn, ts)] && (ackList == old(ackList) || fresh(ackList))
    {
      hide Pairs, Sendable;
      ghost var before := ackList[..];
      Reserve();
      ackList[2 * ackCount] := sn;
      ackList[2 * ackCount + 1] := ts;
      PairsPush(before, ackList[..], ackCount);
      ackCount := ackCount + 1;
    }

    // Makes room for one more, in a larger array if there is none.
    method Reserve()
      requires Valid()
      modifies this`ackList
      ensures Valid() && 2 * (ackCount + 1) <= ackList.Length && (ackList == old(ackList) || fresh(ackList))
      ensures forall k | 0 <= k < 2 * ackCount :: ackList[k] == old(ackList[..])[k]
    {
      hide Sendable;
      var newSize := ackCount + 1;
      if 2 * newSize > ackList.Length {
        var newBlock := 8;
        while newBlock < newSize
          invariant newBlock >= 8
          decreases newSize - newBlock
        {
          newBlock := newBlock * 2;
        }
        var larger := new U32[2 * newBlock];
        var x := 0;
        while x < ackCount
          modifies larger
          invariant 0 <= x <= ackCount && forall k | 0 <= k < 2 * x :: larger[k] == ackList[k]
        {
          larger[2 * x] := ackList[2 * x];
          larger[2 * x + 1] := ackList[2 * x + 1];
          x := x + 1;
        }
        ackList := larger;
      }
    }

    // Looks for the place of `s` from the back of the reordering buffer.
    method InsertSegment(s: Segment)
      modifies this`rcvBuf
      ensures rcvBuf == Insert(old(rcvBuf), s)
    {
      hide TimeDiff;
      var p, repeated := |rcvBuf|, false;
      assert rcvBuf[..p] == rcvBuf && rcvBuf[p..] == [];
      while p > 0
        invariant 0 <= p <= |rcvBuf| && !repeated && rcvBuf == old(rcvBuf)
        invariant Insert(rcvBuf, s) == Insert(rcvBuf[..p], s) + rcvBuf[p..]
      {
        assert rcvBuf[..p][..p - 1] == rcvBuf[..p - 1] && rcvBuf[..p] + rcvBuf[p..] == rcvBuf;
        if rcvBuf[p - 1].sn == s.sn {
          repeated := true;
          break;
        }
        if TimeDiff(s.sn, rcvBuf[p - 1].sn) > 0 {
          break;
        }
        p := p - 1;
        PutOneMore(rcvBuf, p, Insert(rcvBuf[..p], s));
      }
      if repeated {
        assert rcvBuf == rcvBuf[..p] + rcvBuf[p..];
      } else {
        assert Insert(rcvBuf, s) == (rcvBuf[..p] + [s]) + rcvBuf[p..];
        rcvBuf := rcvBuf[..p] + [s] + rcvBuf[p..];
      }
    }

    method ParseData(s: Segment)
      requires Valid()
      modifies this`rcvBuf, this`rcvQueue, this`rcvNxt
      ensures Valid() && Model() == KcpSpec.ParseData(old(Model()), s)
    {
      hide TimeDiff;
      if TimeDiff(s.sn, (rcvNxt + rcvWnd) % WORD) >= 0 || TimeDiff(s.sn, rcvNxt) < 0 {
        return;
      }
      InsertSegment(s);
      MoveAvailable();
    }

    method Acknowledged(s: Segment)
      requires Valid()
      modifies this`sndBuf, this`sndUna, this`rxSrtt, this`rxRttval, this`rxRto
      ensures Valid() && Model() == Shrink(KcpSpec.ParseAck(old(Model()), s.sn))
    {
      hide TimeDiff, KcpSpec.ParseAck, Pairs, Sendable;
      if TimeDiff(current, s.ts) >= 0 {
        UpdateAck(TimeDiff(current, s.ts));
      }
      ParseAck(s.sn);
      ShrinkBuf();
    }

    // Data that is not beyond the window is acknowledged, even if it is old.
    method Accept(s: Segment)
      requires Valid()
      modifies this`ackList, this`ackCount, this`rcvBuf, this`rcvQueue, this`rcvNxt, ackList
      ensures Valid() && (ackList == old(ackList) || fresh(ackList))
      ensures var e := old(Model());
        var e2 := e.(acks := e.acks + [(s.sn, s.ts)]);
        Model() == if TimeDiff(s.sn, e.rcvNxt) >= 0 then KcpSpec.ParseData(e2, s) else e2
    {
      hide TimeDiff, KcpSpec.ParseData, Pairs, Sendable;
      AckPush(s.sn, s.ts);
      if TimeDiff(s.sn, rcvNxt) >= 0 {
        ParseData(s);
      }
    }

    // What one segment of a datagram does.
    method Handle(s: Segment)
      requires Valid() && KnownCommand(s.cmd)
      modifies this`rmtWnd, this`sndBuf, this`sndUna, this`rxSrtt, this`rxRttval, this`rxRto, this`ackList, this`ackCount,
        this`rcvBuf, this`rcvQueue, this`rcvNxt, this`askTell, ackList
      ensures Valid() && Model() == InputSegment(old(Model()), s) && (ackList == old(ackList) || fresh(ackList))
      ensures rmtWnd == s.wnd && askTell == (old(askTell) || s.cmd == CMD_WASK)
    {
      hide TimeDiff, DropAcknowledged, KcpSpec.ParseData, KcpSpec.ParseAck, Sendable, Pairs, Shrink;
      rmtWnd := s.wnd;
      AcceptUna(s.una);
      if s.cmd == CMD_ACK {
        Acknowledged(s);
      } else if s.cmd == CMD_PUSH {
        if TimeDiff(s.sn, (rcvNxt + rcvWnd) % WORD) < 0 {
          Accept(s);
        }
      } else if s.cmd == CMD_WASK {
        askTell := true;
      }
    }

    // Opens the congestion window after progress, never beyond the remote window.
    method OpenWindow()
      requires cwnd < rmtWnd
      modifies this`cwnd, this`incr
      ensures old(cwnd) <= cwnd <= rmtWnd && cwnd <= old(cwnd) + 1 && (old(cwnd < ssthresh) ==> cwnd == old(cwnd) + 1)
    {
      if cwnd < ssthresh {
        cwnd := cwnd + 1;
        incr := (incr + mss) % WORD;
      } else {
        if incr < mss {
          incr := mss;
        }
        incr := (incr + mss * mss % WORD / incr + mss / 16) % WORD;
        if (cwnd + 1) * mss % WORD <= incr {
          cwnd := cwnd + 1;
        }
      }
      // So the clamp to the remote window that follows in the C code never acts.
    }

    method Input(data: seq<Byte>) returns (code: int)
      requires Valid()
      modifies this`rmtWnd, this`sndBuf, this`sndUna, this`rxSrtt, this`rxRttval, this`rxRto, this`ackList, this`ackCount,
        this`rcvBuf, this`rcvQueue, this`rcvNxt, this`askTell, ackList,
        this`cwnd, this`incr
      ensures Valid() && (Model(), code) == KcpSpec.Input(old(Model()), data)
      ensures (rmtWnd, askTell) == Told(conv, data, old(rmtWnd), old(askTell))
      ensures cwnd != old(cwnd) ==> cwnd == old(cwnd) + 1 <= rmtWnd && TimeDiff(sndUna, old(sndUna)) > 0
    {
      hide TimeDiff, InputSegment, DecodeHeader, Kcp.Acks, Sendable, Told, InputFrom, FinishInput;
      var una := sndUna;
      ToldStep(conv, data, rmtWnd, askTell);
      if |data| < OVERHEAD {
        return -1;
      }
      var at, flag, maxAck := 0, false, 0;
      assert data[0..] == data;
      while true
        invariant Valid() && 0 <= at <= |data|
        invariant (ackList == old(ackList) || fresh(ackList)) && cwnd == old(cwnd)
        invariant InputFrom(Model(), data[at..], if flag then MaxAck(maxAck) else NoAck) == KcpSpec.Input(old(Model()), data)
        invariant Told(conv, data[at..], rmtWnd, askTell) == Told(conv, data, old(rmtWnd), old(askTell))
        decreases |data| - at
      {
        ghost var d := data[at..];
        InputStep(Model(), d, if flag then MaxAck(maxAck) else NoAck);
        ToldStep(conv, d, rmtWnd, askTell);
        if |data| - at < OVERHEAD {
          break;
        }
        var (s, length) := DecodeHeader(data[at..]);
        if s.conv != conv {
          return -1;
        }
        at := at + OVERHEAD;
        if |data| - at < length {
          return -2;
        }
        if !KnownCommand(s.cmd) {
          return -3;
        }
        s := s.(data := data[at..at + length]);
        assert data[at..at + length] == d[OVERHEAD..OVERHEAD + length] && data[at + length..] == d[OVERHEAD + length..];
        Handle(s);
        if s.cmd == CMD_ACK {
          if !flag {
            flag, maxAck := true, s.sn;
          } else if TimeDiff(s.sn, maxAck) > 0 {
            maxAck := s.sn;
          }
        }
        at := at + length;
      }
      Finish(flag, maxAck, una);
      code := 0;
    }

    // Counts the skipped segments, and opens the window if there was progress since `una`.
    method Finish(flag: bool, maxAck: U32, una: U32)
      requires Valid()
      modifies this`sndBuf, this`cwnd, this`incr
      ensures Valid() && Model() == FinishInput(old(Model()), if flag then MaxAck(maxAck) else NoAck)
      ensures cwnd != old(cwnd) ==> cwnd == old(cwnd) + 1 <= rmtWnd && TimeDiff(sndUna, una) > 0
    {
      hide TimeDiff, Sendable, Pairs, KcpSpec.ParseFastAck;
      if flag {
        ParseFastAck(maxAck);
      }
      if TimeDiff(sndUna, una) > 0 && cwnd < rmtWnd {
        OpenWindow();
      }
    }

    // ---- a flush ----

    // What the fields contribute to a flush: the windows, the timers and the probes due.
    ghost function EnvAt(now: U32): FlushEnv
      reads this
    {
      var window := Min(sndWnd, rmtWnd);
      FlushEnv(now, if nocwnd then window else Min(cwnd, window), rxRto, nodelay,
               if fastresend > 0 then fastresend else WORD - 1, if nodelay then 0 else rxRto / 8,
               askSend || (rmtWnd == 0 && probeWait != 0 && TimeDiff(now, tsProbe) >= 0), askTell)
    }

    ghost function Env(): FlushEnv
      reads this
    {
      EnvAt(current)
    }

    // The first `size` bytes of the buffer are the segments `p`.
    ghost predicate Packed(size: nat, p: Packet)
      reads buffer
    {
      size <= mtu && size <= buffer.Length && buffer[..size] == Encode(p)
    }

    method PutBytes(at: nat, bytes: seq<Byte>)
      requires at + |bytes| <= buffer.Length
      modifies buffer
      ensures buffer[..at + |bytes|] == old(buffer[..at]) + bytes
    {
      var i := 0;
      while i < |bytes|
        invariant 0 <= i <= |bytes| && buffer[..at + i] == old(buffer[..at]) + bytes[..i]
      {
        buffer[at + i] := bytes[i];
        i := i + 1;
      }
    }

    method Output(size: nat)
      requires size <= buffer.Length
      modifies this`wire
      ensures wire == if size == 0 then old(wire) else old(wire) + [buffer[..size]]
    {
      if size != 0 {
        wire := wire + [buffer[..size]];
      }
    }

    // Adds a segment to the datagram in the buffer, which goes out first if it has no room.
    method Put(size: nat, s: Segment, ghost p: Packet, ghost rest: Packet) returns (next: nat, ghost q: Packet)
      requires mtu == mss + OVERHEAD && buffer.Length == (mtu + OVERHEAD) * 3 && |s.data| <= mss && Packed(size, p)
      modifies this`wire, buffer
      ensures Packed(next, q)
      ensures wire + EncodeAll(Group(q, rest, mtu)) == old(wire) + EncodeAll(Group(p, [s] + rest, mtu))
    {
      hide Encode, EncodeHeader, Group, EncodeAll;
      next, q := size, p;
      GroupStep(p, s, rest, mtu);
      EncodeAppend(p, s);
      if size + OVERHEAD + |s.data| > mtu {
        Output(size);
        next, q := 0, [];
        EncodeAppend([], s);
        ConcatAssociative(old(wire), if size == 0 then [] else [buffer[..size]], EncodeAll(Group([s], rest, mtu)));
      }
      assert q + [s] == if q == [] then [s] else p + [s];
      PutBytes(next, EncodeHeader(s));
      PutBytes(next + OVERHEAD, s.data);
      next := next + OVERHEAD + |s.data|;
      q := q + [s];
    }

    method UpdateProbe()
      modifies this`tsProbe, this`probeWait, this`askSend
      ensures askSend == old(Env()).ask
      ensures rmtWnd != 0 ==> tsProbe == 0 && probeWait == 0
      ensures rmtWnd == 0 && old(probeWait) == 0 ==> probeWait == PROBE_INIT && tsProbe == (current + PROBE_INIT) % WORD
      ensures rmtWnd == 0 && old(probeWait) != 0 ==>
        if TimeDiff(current, old(tsProbe)) >= 0 then
          var wait := AtLeast(PROBE_INIT, old(probeWait));
          probeWait == Min((wait + wait / 2) % WORD, PROBE_LIMIT) && tsProbe == (current + probeWait) % WORD
        else probeWait == old(probeWait) && tsProbe == old(tsProbe)
    {
      if rmtWnd == 0 {
        if probeWait == 0 {
          probeWait := PROBE_INIT;
          tsProbe := (current + probeWait) % WORD;
        } else if TimeDiff(current, tsProbe) >= 0 {
          if probeWait < PROBE_INIT {
            probeWait := PROBE_INIT;
          }
          probeWait := Min((probeWait + probeWait / 2) % WORD, PROBE_LIMIT);
          tsProbe := (current + probeWait) % WORD;
          askSend := true;
        }
      } else {
        tsProbe, probeWait := 0, 0;
      }
    }

    // Acknowledges everything on the list; the last number and time remain for the probes.
    method FlushAcks(wnd: U16, ghost after: Packet) returns (size: nat, sn: U32, ts: U32, ghost p: Packet)
      requires Valid() && wnd == Unused(Model())
      modifies this`wire, buffer
      ensures Valid() && Packed(size, p)
      ensures wire + EncodeAll(Group(p, after, mtu)) == old(wire) + EncodeAll(Group([], AckSegments(Model(), Acks()) + after, mtu))
      ensures (sn, ts) == LastAck(Acks())
    {
      hide Unused, Encode, Group, EncodeAll, Sendable, Pairs;
      ghost var e := Model();
      size, sn, ts, p := 0, 0, 0, [];
      EncodeNothing();
      assert buffer[..0] == [];
      var i := 0;
      assert e.acks[0..] == e.acks;
      while i < ackCount
        invariant 0 <= i <= ackCount && Valid() && Model() == e && Packed(size, p)
        invariant wire + EncodeAll(Group(p, AckSegments(e, e.acks[i..]) + after, mtu)) == old(wire) + EncodeAll(Group([], AckSegments(e, e.acks) + after, mtu))
        invariant (sn, ts) == if i == 0 then (0, 0) else e.acks[i - 1]
      {
        PairsAt(ackList[..], ackCount, i);
        sn, ts := ackList[2 * i], ackList[2 * i + 1];
        var s := Segment(conv, CMD_ACK, 0, wnd, ts, sn, rcvNxt, []);
        AcksStep(e, i, after);
        size, p := Put(size, s, p, AckSegments(e, e.acks[i + 1..]) + after);
        i := i + 1;
      }
      AcksEnd(e, after);
    }

    method FlushProbes(at: nat, wnd: U16, sn: U32, ts: U32, ghost p: Packet, ghost after: Packet) returns (size: nat, ghost q: Packet)
      requires Valid() && Packed(at, p) && wnd == Unused(Model())
      modifies this`wire, buffer
      ensures Valid() && Packed(size, q)
      ensures wire + EncodeAll(Group(q, after, mtu)) == old(wire) + EncodeAll(Group(p, Probes(Model(), askSend, askTell, sn, ts) + after, mtu))
    {
      hide Unused, Encode, Group, EncodeAll, Sendable, Pairs;
      size, q := at, p;
      ghost var e := Model();
      ghost var tell := if askTell then [Control(e, CMD_WINS, sn, ts)] else [];
      assert [] + (tell + after) == tell + after;
      ghost var ask := if askSend then [Control(e, CMD_WASK, sn, ts)] else [];
      ConcatAssociative(ask, tell, after);
      if askSend {
        size, q := Put(size, Segment(conv, CMD_WASK, 0, wnd, ts, sn, rcvNxt, []), q, tell + after);
      }
      assert [] + after == after;
      if askTell {
        size, q := Put(size, Segment(conv, CMD_WINS, 0, wnd, ts, sn, rcvNxt, []), q, after);
      }
    }

    // Numbers what the window admits.
    method NumberQueue(window: U32, wnd: U16, ghost env: FlushEnv)
      requires Valid() && wnd == Unused(Model()) && env.cwnd == window && env.current == current && env.rto == rxRto
      modifies this`sndQueue, this`sndBuf, this`sndNxt
      ensures Valid() && Model() == NumberAll(old(Model()), env)
    {
      hide TimeDiff, Unused, Pairs;
      while TimeDiff(sndNxt, (sndUna + window) % WORD) < 0
        invariant Valid() && wnd == Unused(Model())
        invariant NumberAll(Model(), env) == NumberAll(old(Model()), env)
        decreases |sndQueue|
      {
        if sndQueue == [] {
          break;
        }
        var p := sndQueue[0];
        ghost var e := Model();
        sndQueue := sndQueue[1..];
        sndBuf := sndBuf + [Flight(Segment(conv, CMD_PUSH, p.frg, wnd, current, sndNxt, rcvNxt, p.data), current, rxRto, 0, 0)];
        sndNxt := (sndNxt + 1) % WORD;
        assert Model() == e.(sndQueue := e.sndQueue[1..], sndBuf := e.sndBuf + [Number(e, env, e.sndQueue[0])], sndNxt := (e.sndNxt + 1) % WORD);
        UnusedSame(e, Model());
      }
    }

    // Decides whether a segment goes out now, and what becomes of its timers.
    method Consider(f: Flight, wnd: U16, resent: U32, rtomin: U32, ghost e: Endpoint, ghost env: FlushEnv)
      returns (g: Flight, cause: Cause)
      requires wnd == Unused(e) && rcvNxt == e.rcvNxt
      requires env.current == current && env.rto == rxRto && env.nodelay == nodelay && env.resent == resent && env.rtomin == rtomin
      ensures g == Transmitted(e, f, env) && cause == Due(f, env)
    {
      hide TimeDiff, Unused;
      g, cause := f, Wait;
      if g.xmit == 0 {
        cause := First;
        g := g.(xmit := 1, rto := rxRto);
        g := g.(resendts := (current + g.rto + rtomin) % WORD);
      } else if TimeDiff(current, g.resendts) >= 0 {
        cause := Timeout;
        g := g.(xmit := (g.xmit + 1) % WORD, rto := (g.rto + if !nodelay then rxRto else rxRto / 2) % WORD);
        g := g.(resendts := (current + g.rto) % WORD);
      } else if g.fastack >= resent {
        cause := Skipped;
        g := g.(xmit := (g.xmit + 1) % WORD, fastack := 0, resendts := (current + g.rto) % WORD);
      }
      if cause != Wait {
        g := g.(seg := g.seg.(ts := current, wnd := wnd, una := rcvNxt));
      }
    }

    // Sends the segment at `i` if it is its time.
    method FlushOne(i: nat, at: nat, wnd: U16, resent: U32, rtomin: U32, ghost e: Endpoint, ghost env: FlushEnv, ghost p: Packet, ghost after: Packet)
      returns (size: nat, cause: Cause, ghost q: Packet)
      requires Valid() && Packed(at, p) && i < |sndBuf| && wnd == Unused(e) && rcvNxt == e.rcvNxt
      requires env.current == current && env.rto == rxRto && env.nodelay == nodelay && env.resent == resent && env.rtomin == rtomin
      modifies this`sndBuf, this`wire, buffer
      ensures Valid() && Packed(size, q)
      ensures var f := old(sndBuf)[i];
        && sndBuf == old(sndBuf)[i := Transmitted(e, f, env)] && cause == Due(f, env)
        && wire + EncodeAll(Group(q, after, mtu)) ==
             old(wire) + EncodeAll(Group(p, (if cause == Wait then [] else [Transmitted(e, f, env).seg]) + after, mtu))
    {
      hide Unused, TimeDiff, Due, Transmitted, Encode, Group, EncodeAll, Pairs;
      size, q := at, p;
      var f;
      f, cause := Consider(sndBuf[i], wnd, resent, rtomin, e, env);
      TransmittedData(e, sndBuf[i], env);
      sndBuf := sndBuf[i := f];
      if cause != Wait {
        size, q := Put(size, f.seg, q, after);
      } else {
        assert [] + after == after;
      }
    }

    method FlushData(at: nat, wnd: U16, resent: U32, rtomin: U32, ghost env: FlushEnv, ghost p: Packet)
      returns (size: nat, changed: bool, lost: bool, ghost q: Packet)
      requires Valid() && Packed(at, p) && wnd == Unused(Model())
      requires env.current == current && env.rto == rxRto && env.nodelay == nodelay && env.resent == resent && env.rtomin == rtomin
      modifies this`sndBuf, this`wire, buffer
      ensures Valid() && Packed(size, q)
      ensures var e := old(Model());
        && Model() == e.(sndBuf := TransmitAll(e, e.sndBuf, env))
        && wire + EncodeAll(Group(q, [], mtu)) == old(wire) + EncodeAll(Group(p, DataSegments(e, e.sndBuf, env), mtu))
        && changed == AnyCause(e.sndBuf, env, Skipped) && lost == AnyCause(e.sndBuf, env, Timeout)
    {
      hide Unused, TimeDiff, Due, Transmitted, TransmitAll, DataSegments, Encode, Group, EncodeAll, Pairs, AnyCause, Sendable;
      NoCause(env, Skipped);
      NoCause(env, Timeout);
      ghost var e := Model();
      ghost var buf := sndBuf;
      size, changed, lost, q := at, false, false, p;
      var i := 0;
      assert buf[0..] == buf && buf[..0] == [];
      while i < |sndBuf|
        invariant 0 <= i <= |sndBuf| == |buf| && sndBuf[i..] == buf[i..] && Valid() && Packed(size, q)
        invariant ackList[..] == old(ackList[..])
        invariant sndBuf[..i] + TransmitAll(e, buf[i..], env) == TransmitAll(e, buf, env)
        invariant wire + EncodeAll(Group(q, DataSegments(e, buf[i..], env), mtu)) == old(wire) + EncodeAll(Group(p, DataSegments(e, buf, env), mtu))
        invariant changed == AnyCause(buf[..i], env, Skipped) && lost == AnyCause(buf[..i], env, Timeout)
      {
        ghost var before := sndBuf;
        TransmitStep(e, buf, i, env);
        assert buf[i..][0] == before[i] && buf[i..][1..] == buf[i + 1..];
        var cause;
        size, cause, q := FlushOne(i, size, wnd, resent, rtomin, e, env, q, DataSegments(e, buf[i + 1..], env));
        CauseMore(buf, i, env, Skipped);
        CauseMore(buf, i, env, Timeout);
        changed := changed || cause == Skipped;
        lost := lost || cause == Timeout;
        i := i + 1;
        assert sndBuf[..i - 1] == before[..i - 1] && sndBuf[i..] == before[i..];
        TakeOneMore(sndBuf, i - 1, TransmitAll(e, buf[i..], env));
      }
      TransmitNothing(e, env);
      assert sndBuf == sndBuf[..i] + sndBuf[i..] && buf[..i] == buf && buf[i..] == [];
    }

    // The congestion window and its threshold after a flush: about half of what is in flight
    // after a skipped segment, closed after a timeout, and never zero.
    function Adjusted(cwnd: U32, ssthresh: U32, inflight: U32, resent: U32, window: U32, changed: bool, lost: bool): (r: (U32, U32))
      ensures r.0 >= 1 && (changed || lost ==> r.1 >= THRESH_MIN) && (lost ==> r.0 == 1)
      ensures !changed && !lost ==> r.1 == ssthresh && (cwnd > 0 ==> r.0 == cwnd)
    {
      if lost then (1, AtLeast(THRESH_MIN, window / 2))
      else if changed then
        var half := AtLeast(THRESH_MIN, inflight / 2);
        (AtLeast(1, (half + resent) % WORD), half)
      else (AtLeast(1, cwnd), ssthresh)
    }

    // Halves the window after a skipped segment, closes it after a timeout; it is never zero.
    method AdjustWindow(changed: bool, lost: bool, resent: U32, window: U32)
      modifies this`ssthresh, this`cwnd, this`incr
      ensures (cwnd, ssthresh) == Adjusted(old(cwnd), old(ssthresh), (sndNxt - sndUna) % WORD, resent, window, changed, lost)
    {
      if changed {
        var inflight := (sndNxt - sndUna) % WORD;
        ssthresh := if inflight / 2 < THRESH_MIN then THRESH_MIN else inflight / 2;
        cwnd := (ssthresh + resent) % WORD;
        incr := cwnd * mss % WORD;
      }
      if lost {
        ssthresh := if window / 2 < THRESH_MIN then THRESH_MIN else window / 2;
        cwnd := 1;
        incr := mss;
      }
      if cwnd < 1 {
        cwnd := 1;
        incr := mss;
      }
    }

    // The specification's flush, byte for byte: the datagrams that go out are the encodings of
    // its groups of segments, in order.
    method Flush()
      requires Valid()
      modifies this`sndQueue, this`sndBuf, this`sndNxt, this`ackCount, this`wire, this`askSend, this`askTell,
        this`tsProbe, this`probeWait, this`ssthresh, this`cwnd, this`incr, buffer
      ensures Valid() && cwnd >= 1 && !askSend && !askTell
      ensures var r := KcpSpec.Flush(old(Model()), old(Env()));
        Model() == r.endpoint && wire == old(wire) + EncodeAll(Datagrams(r))
      ensures var env, e1 := old(Env()), NumberAll(old(Model()).(acks := []), old(Env()));
        (cwnd, ssthresh) == Adjusted(old(cwnd), old(ssthresh), (e1.sndNxt - e1.sndUna) % WORD, env.resent, env.cwnd,
                                     AnyCause(e1.sndBuf, env, Skipped), AnyCause(e1.sndBuf, env, Timeout))
    {
      hide Encode, Group, EncodeAll, Pairs, Unused, AckSegments, DataSegments, TransmitAll, NumberAll, Sendable, TimeDiff, Kcp.Packed, ProbeSegments,
        AnyCause, Adjusted;
      ghost var e, env := Model(), Env();
      ghost var e1 := NumberAll(e.(acks := []), env);
      var wnd := WndUnused();
      var size;
      ghost var p;
      size, p := FlushControl(wnd, env, DataSegments(e1, e1.sndBuf, env));
      UnusedSame(e, Model());
      FlushQueue(size, wnd, env, p);
    }

    // The acknowledgements and probes.
    method FlushControl(wnd: U16, ghost env: FlushEnv, ghost data: Packet) returns (size: nat, ghost p: Packet)
      requires Valid() && wnd == Unused(Model()) && env == Env()
      modifies this`ackCount, this`wire, this`askSend, this`askTell, this`tsProbe, this`probeWait, buffer
      ensures Valid() && Packed(size, p) && Model() == old(Model()).(acks := []) && !askSend && !askTell
      ensures var e := old(Model());
        wire + EncodeAll(Group(p, data, mtu)) == old(wire) + EncodeAll(Group([], AckSegments(e, e.acks) + ProbeSegments(e, env) + data, mtu))
    {
      hide Encode, Group, EncodeAll, Pairs, Unused, AckSegments, Sendable, TimeDiff, Kcp.Packed, Probes, LastAck;
      ghost var e, probes := Model(), ProbeSegments(Model(), env);
      var sn, ts;
      size, sn, ts, p := DrainAcks(wnd, probes + data);
      ConcatAssociative(AckSegments(e, e.acks), probes, data);
      ProbesSame(e, Model(), env.ask, env.tell, sn, ts);
      size, p := DrainProbes(size, wnd, sn, ts, env, p, data);
    }

    method DrainAcks(wnd: U16, ghost after: Packet) returns (size: nat, sn: U32, ts: U32, ghost p: Packet)
      requires Valid() && wnd == Unused(Model())
      modifies this`ackCount, this`wire, buffer
      ensures Valid() && Packed(size, p) && Model() == old(Model()).(acks := []) && wnd == Unused(Model())
      ensures var e := old(Model());
        && wire + EncodeAll(Group(p, after, mtu)) == old(wire) + EncodeAll(Group([], AckSegments(e, e.acks) + after, mtu))
        && (sn, ts) == LastAck(e.acks)
    {
      hide Encode, Group, EncodeAll, Pairs, Unused, AckSegments, Sendable, Kcp.Packed, LastAck;
      ghost var e := Model();
      size, sn, ts, p := FlushAcks(wnd, after);
      ackCount := 0;
      PairsNone(ackList[..]);
      UnusedSame(e, Model());
    }

    method DrainProbes(at: nat, wnd: U16, sn: U32, ts: U32, ghost env: FlushEnv, ghost p: Packet, ghost after: Packet)
      returns (size: nat, ghost q: Packet)
      requires Valid() && Packed(at, p) && wnd == Unused(Model()) && env == Env()
      modifies this`wire, this`askSend, this`askTell, this`tsProbe, this`probeWait, buffer
      ensures Valid() && Packed(size, q) && Model() == old(Model()) && !askSend && !askTell
      ensures wire + EncodeAll(Group(q, after, mtu)) == old(wire) + EncodeAll(Group(p, Probes(Model(), env.ask, env.tell, sn, ts) + after, mtu))
    {
      hide Encode, Group, EncodeAll, Pairs, Unused, Sendable, TimeDiff, Kcp.Packed, Probes;
      UpdateProbe();
      size, q := FlushProbes(at, wnd, sn, ts, p, after);
      askSend, askTell := false, false;
    }

    // New and retransmitted data.
    method FlushQueue(at: nat, wnd: U16, ghost env: FlushEnv, ghost p: Packet)
      requires Valid() && Packed(at, p) && wnd == Unused(Model())
      requires env == Env().(ask := env.ask, tell := env.tell)
      modifies this`sndQueue, this`sndBuf, this`sndNxt, this`wire, this`ssthresh, this`cwnd, this`incr, buffer
      ensures Valid() && cwnd >= 1
      ensures var e1 := NumberAll(old(Model()), env);
        && Model() == e1.(sndBuf := TransmitAll(e1, e1.sndBuf, env))
        && wire == old(wire) + EncodeAll(Group(p, DataSegments(e1, e1.sndBuf, env), mtu))
        && (cwnd, ssthresh) == Adjusted(old(cwnd), old(ssthresh), (e1.sndNxt - e1.sndUna) % WORD, env.resent, env.cwnd,
                                        AnyCause(e1.sndBuf, env, Skipped), AnyCause(e1.sndBuf, env, Timeout))
    {
      hide Encode, Group, EncodeAll, Pairs, Unused, DataSegments, TransmitAll, NumberAll, Sendable, TimeDiff, Kcp.Packed, AnyCause, Adjusted;
      var window := Min(sndWnd, rmtWnd);
      if !nocwnd {
        window := Min(cwnd, window);
      }
      ghost var e := Model();
      NumberQueue(window, wnd, env);
      var resent := if fastresend > 0 then fastresend else WORD - 1;
      var rtomin := if !nodelay then rxRto / 8 else 0;
      UnusedSame(e, Model());
      FlushBuffer(at, wnd, resent, rtomin, window, env, p);
    }

    method FlushBuffer(at: nat, wnd: U16, resent: U32, rtomin: U32, window: U32, ghost env: FlushEnv, ghost p: Packet)
      requires Valid() && Packed(at, p) && wnd == Unused(Model())
      requires env.current == current && env.rto == rxRto && env.nodelay == nodelay && env.resent == resent && env.rtomin == rtomin
      modifies this`sndBuf, this`wire, this`ssthresh, this`cwnd, this`incr, buffer
      ensures Valid() && cwnd >= 1
      ensures var e := old(Model());
        && Model() == e.(sndBuf := TransmitAll(e, e.sndBuf, env))
        && wire == old(wire) + EncodeAll(Group(p, DataSegments(e, e.sndBuf, env), mtu))
        && (cwnd, ssthresh) == Adjusted(old(cwnd), old(ssthresh), (e.sndNxt - e.sndUna) % WORD, resent, window,
                                        AnyCause(e.sndBuf, env, Skipped), AnyCause(e.sndBuf, env, Timeout))
    {
      hide Encode, Group, EncodeAll, Pairs, Unused, DataSegments, TransmitAll, Sendable, TimeDiff, Kcp.Packed, AnyCause, Adjusted;
      var size, changed, lost;
      ghost var q;
      size, changed, lost, q := FlushData(at, wnd, resent, rtomin, env, p);
      OutputRest(size, q);
      AdjustWindow(changed, lost, resent, window);
    }

    method OutputRest(size: nat, ghost p: Packet)
      requires Packed(size, p)
      modifies this`wire
      ensures wire == old(wire) + EncodeAll(Group(p, [], mtu))
    {
      hide Encode, Group, EncodeAll;
      PackedEnd(size, p);
      Output(size);
    }

    method WndUnused() returns (wnd: U16)
      requires Valid()
      ensures wnd == Unused(Model())
    {
      wnd := (if |rcvQueue| < rcvWnd then rcvWnd - |rcvQueue| else 0) % 0x1_0000;
    }

    lemma PackedEnd(size: nat, p: Packet)
      requires Packed(size, p)
      ensures size <= buffer.Length
      ensures EncodeAll(Group(p, [], mtu)) == if size == 0 then [] else [buffer[..size]]
    {
      assert p != [] ==> |EncodeHeader(p[0])| == OVERHEAD;
    }

    // ---- the clock ----

    ghost predicate FlushDue(now: U32)
      reads this
    {
      !updated || TimeDiff(now, tsFlush) >= 0 || TimeDiff(now, tsFlush) < -10000
    }

    // Flushes when the time has come. The next flush is then due at most an interval away.
    method Update(now: U32)
      requires Valid() && 0 < interval < WORD / 2
      modifies this`current, this`updated, this`tsFlush,
        this`sndQueue, this`sndBuf, this`sndNxt, this`ackCount, this`wire, this`askSend, this`askTell,
        this`tsProbe, this`probeWait, this`ssthresh, this`cwnd, this`incr, buffer
      ensures Valid() && current == now && updated
      ensures old(FlushDue(now)) ==> 0 < TimeDiff(tsFlush, now) <= interval
      ensures var r := KcpSpec.Flush(old(Model()), old(EnvAt(now)));
        if old(FlushDue(now)) then Model() == r.endpoint && wire == old(wire) + EncodeAll(Datagrams(r))
        else Model() == old(Model()) && wire == old(wire)
    {
      hide KcpSpec.Flush, Datagrams, EncodeAll, Pairs, Sendable, TimeDiff, NumberAll, AnyCause, Adjusted;
      var due := Tick(now);
      if due {
        Flush();
      }
    }

    method Tick(now: U32) returns (due: bool)
      requires 0 < interval < WORD / 2
      modifies this`current, this`updated, this`tsFlush
      ensures current == now && updated && due == old(FlushDue(now))
      ensures if due then 0 < TimeDiff(tsFlush, now) <= interval else tsFlush == old(tsFlush)
    {
      hide TimeDiff;
      current := now;
      TimeDiffExact(now, now);
      if !updated {
        updated, tsFlush := true, current;
      }
      var slap := TimeDiff(current, tsFlush);
      if slap >= 10000 || slap < -10000 {
        tsFlush, slap := current, 0;
      }
      due := slap >= 0;
      if due {
        LaterFlush(now, tsFlush, interval);
        tsFlush := (tsFlush + interval) % WORD;
        if TimeDiff(current, tsFlush) >= 0 {
          tsFlush := (current + interval) % WORD;
        }
      }
    }
  }

  lemma LaterFlush(now: U32, ts: U32, interval: U32)
    requires TimeDiff(now, ts) >= 0 && 0 < interval < WORD / 2
    ensures var next := (ts + interval) % WORD;
      (TimeDiff(now, next) < 0 ==> 0 < TimeDiff(next, now) <= interval) && TimeDiff((now + interval) % WORD, now) == interval
  {
    var next := (ts + interval) % WORD;
    var d := if now >= ts then now - ts else now - ts + WORD;
    WrappedDiff(now, ts, d);
    WrappedDiff(now, next, d - interval);
    WrappedDiff(next, now, interval - d);
    WrappedDiff((now + interval) % WORD, now, interval);
  }

  // A difference of two words, up to one wrap.
  lemma WrappedDiff(a: U32, b: U32, d: int)
    requires a - b == d || a - b == d + WORD || a - b == d - WORD
    ensures -(WORD / 2) <= d < WORD / 2 ==> TimeDiff(a, b) == d
    ensures 0 <= d < WORD && TimeDiff(a, b) >= 0 ==> d < WORD / 2
  {
  }

  lemma ProbesSame(e: Endpoint, e': Endpoint, ask: bool, tell: bool, sn: U32, ts: U32)
    requires SameReceiver(e, e')
    ensures Probes(e, ask, tell, sn, ts) == Probes(e', ask, tell, sn, ts)
  {
  }

  lemma PairsNone(s: seq<U32>)
    ensures Pairs(s, 0) == []
  {
  }

  lemma AcksStep(e: Endpoint, i: nat, after: Packet)
    requires i < |e.acks|
    ensures AckSegments(e, e.acks[i..]) + after == [Control(e, CMD_ACK, e.acks[i].0, e.acks[i].1)] + (AckSegments(e, e.acks[i + 1..]) + after)
  {
    assert e.acks[i..][1..] == e.acks[i + 1..];
  }

  lemma AcksEnd(e: Endpoint, after: Packet)
    ensures AckSegments(e, e.acks[|e.acks|..]) + after == after
  {
  }

  lemma UnusedSame(e: Endpoint, e': Endpoint)
    requires e.rcvQueue == e'.rcvQueue && e.rcvWnd == e'.rcvWnd
    ensures Unused(e) == Unused(e')
  {
  }

  lemma TransmitStep(e: Endpoint, buf: seq<Flight>, i: nat, env: FlushEnv)
    requires i < |buf|
    ensures TransmitAll(e, buf[i..], env) == [Transmitted(e, buf[i], env)] + TransmitAll(e, buf[i + 1..], env)
    ensures DataSegments(e, buf[i..], env) ==
      (if Due(buf[i], env) == Wait then [] else [Transmitted(e, buf[i], env).seg]) + DataSegments(e, buf[i + 1..], env)
  {
    hide Due, Transmitted;
    assert buf[i..][1..] == buf[i + 1..];
  }

  lemma TransmitNothing(e: Endpoint, env: FlushEnv)
    ensures TransmitAll(e, [], env) == [] && DataSegments(e, [], env) == []
  {
  }

  lemma TransmittedData(e: Endpoint, f: Flight, env: FlushEnv)
    ensures Transmitted(e, f, env).seg.data == f.seg.data
  {
  }

  function EncodeAll(packets: seq<Packet>): seq<seq<Byte>> {
    if packets == [] then [] else [Encode(packets[0])] + EncodeAll(packets[1..])
  }

  // One more segment: it starts a datagram of its own, or joins the one being put together.
  lemma GroupStep(p: Packet, s: Segment, rest: Packet, mtu: nat)
    ensures Encode([]) == [] && (p != [] ==> Encode(p) != [])
    ensures EncodeAll(Group(p, [s] + rest, mtu)) ==
      if |Encode(p)| + OVERHEAD + |s.data| > mtu
      then (if p == [] then [] else [Encode(p)]) + EncodeAll(Group([s], rest, mtu))
      else EncodeAll(Group(p + [s], rest, mtu))
  {
    hide EncodeHeader;
    var all, next := [s] + rest, Group([s], rest, mtu);
    assert all[0] == s && all[1..] == rest;
    if p == [] {
      assert [] + next == next && [] + EncodeAll(next) == EncodeAll(next);
    } else {
      assert |EncodeHeader(p[0])| == OVERHEAD;
      assert ([p] + next)[1..] == next;
    }
  }

  lemma TakeOneMore<T>(s: seq<T>, i: nat, rest: seq<T>)
    requires i < |s|
    ensures s[..i] + ([s[i]] + rest) == s[..i + 1] + rest
  {
  }

  lemma PutOneMore<T>(s: seq<T>, p: nat, front: seq<T>)
    requires p < |s|
    ensures (front + [s[p]]) + s[p + 1..] == front + s[p..]
  {
  }

  lemma SplitStep(rest: seq<Byte>, mss: nat, count: nat)
    requires 0 < count <= 0x100 && (count - 1) * mss <= |rest| <= count * mss
    ensures var size := if |rest| > mss then mss else |rest|;
      && Split(rest, mss, count) == [Piece((count - 1) as Byte, rest[..size])] + (if count > 1 then Split(rest[size..], mss, count - 1) else [])
      && (count > 1 ==> (count - 2) * mss <= |rest[size..]| <= (count - 1) * mss)
  {
    if count > 1 {
      LessOne(count, mss);
      SplitMore(rest, mss, count, (count - 2) * mss);
    } else {
      assert count * mss == mss;
      assert rest[..|rest|] == rest;
    }
  }

  lemma LessOne(count: nat, mss: nat)
    requires count > 1
    ensures count * mss == (count - 1) * mss + mss && (count - 1) * mss == (count - 2) * mss + mss && (count - 2) * mss >= 0
  {
  }

  lemma SplitMore(rest: seq<Byte>, mss: nat, count: nat, less: nat)
    requires 1 < count <= 0x100 && less == (count - 2) * mss && less + mss == (count - 1) * mss && less + mss <= |rest| <= less + mss + mss
    ensures var size := if |rest| > mss then mss else |rest|;
      && Split(rest, mss, count) == [Piece((count - 1) as Byte, rest[..size])] + Split(rest[size..], mss, count - 1)
      && less <= |rest[size..]| <= less + mss
  {
  }

  lemma PeekIsJoined(q: seq<Segment>)
    requires KcpSpec.PeekSize(q) >= 0
    ensures KcpSpec.PeekSize(q) == |Joined(q[..HeadCount(q)])|
  {
    if q[0].frg == 0 {
      assert q[..1][1..] == [];
    }
  }
}
