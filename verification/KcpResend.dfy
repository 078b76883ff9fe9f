// When a numbered piece is sent: at once, when its time is up, or when enough later ones have
// been acknowledged, and at no other time.

module KcpResend {
  import opened Words
  import opened KcpWire
  import opened KcpSpec
  import opened KcpProtocol

  // Whether `time` is not after the clock, both counted round 2^32.
  predicate IsOver(time: U32, clock: U32) {
    (clock as int - time) % WORD < LIMIT
  }

  // What makes a flush send a numbered piece again.
  predicate IsDue(g: Flight, env: FlushEnv) {
    g.xmit == 0 || IsOver(g.resendts, env.current) || g.fastack >= env.resent
  }

  lemma OverMeans(time: U32, clock: U32)
    ensures IsOver(time, clock) <==> TimeDiff(clock, time) >= 0
  {
  }

  ghost predicate Sends(segments: seq<Segment>, sn: int) {
    exists s <- segments :: s.cmd == CMD_PUSH && s.sn == sn
  }

  ghost predicate AnyDue(buf: seq<Flight>, env: FlushEnv, sn: int) {
    exists g <- buf :: g.seg.sn == sn && IsDue(g, env)
  }

  lemma DueMeans(g: Flight, env: FlushEnv)
    ensures Due(g, env) != Wait <==> IsDue(g, env)
  {
    OverMeans(g.resendts, env.current);
  }

  lemma {:induction false} DataSendsDue(e: Endpoint, buf: seq<Flight>, env: FlushEnv, sn: int)
    requires forall g <- buf :: g.seg.cmd == CMD_PUSH
    ensures Sends(DataSegments(e, buf, env), sn) <==> AnyDue(buf, env, sn)
  {
    hide Due, IsDue;
    if buf != [] {
      var g, rest := buf[0], DataSegments(e, buf[1..], env);
      DueMeans(g, env);
      TransmittedSame(e, g, env);
      DataSendsDue(e, buf[1..], env, sn);
      SendsConcat(if Due(g, env) == Wait then [] else [Transmitted(e, g, env).seg], rest, sn);
      AnyDueConcat([g], buf[1..], env, sn);
      assert [g] + buf[1..] == buf;
    }
  }

  lemma TransmittedSame(e: Endpoint, g: Flight, env: FlushEnv)
    ensures var h := Transmitted(e, g, env); h.seg.sn == g.seg.sn && h.seg.cmd == g.seg.cmd
  {
  }

  lemma SendsConcat(a: seq<Segment>, b: seq<Segment>, sn: int)
    ensures Sends(a + b, sn) <==> Sends(a, sn) || Sends(b, sn)
    ensures |a| == 1 ==> (Sends(a, sn) <==> a[0].cmd == CMD_PUSH && a[0].sn == sn)
  {
    if Sends(a, sn) {
      var s :| s in a && s.cmd == CMD_PUSH && s.sn == sn;
      assert s in a + b;
    }
    if Sends(b, sn) {
      var s :| s in b && s.cmd == CMD_PUSH && s.sn == sn;
      assert s in a + b;
    }
    if |a| == 1 {
      assert a[0] in a;
    }
  }

  lemma AnyDueConcat(a: seq<Flight>, b: seq<Flight>, env: FlushEnv, sn: int)
    ensures AnyDue(a + b, env, sn) <==> AnyDue(a, env, sn) || AnyDue(b, env, sn)
    ensures |a| == 1 ==> (AnyDue(a, env, sn) <==> a[0].seg.sn == sn && IsDue(a[0], env))
  {
    hide IsDue;
    if AnyDue(a, env, sn) {
      var g :| g in a && g.seg.sn == sn && IsDue(g, env);
      assert g in a + b;
    }
    if AnyDue(b, env, sn) {
      var g :| g in b && g.seg.sn == sn && IsDue(g, env);
      assert g in a + b;
    }
    if |a| == 1 {
      assert a[0] in a;
    }
  }

  lemma NumberNew(x: Endpoint, env: FlushEnv, p: Piece)
    ensures var g := Number(x, env, p); g.xmit == 0 && g.seg.cmd == CMD_PUSH && g.seg.sn == x.sndNxt && IsDue(g, env)
  {
  }

  // Numbering appends new flights under the next numbers.
  lemma {:induction false} NumbersNew(x: Endpoint, env: FlushEnv, sn: int)
    requires x.sndNxt + |x.sndQueue| < LIMIT
    ensures var x' := NumberAll(x, env);
      && x.sndNxt <= x'.sndNxt <= x.sndNxt + |x.sndQueue| && x.sndBuf <= x'.sndBuf
      && (forall g <- x'.sndBuf[|x.sndBuf|..] :: g.xmit == 0 && g.seg.cmd == CMD_PUSH)
      && (AnyDue(x'.sndBuf[|x.sndBuf|..], env, sn) <==> x.sndNxt <= sn < x'.sndNxt)
    decreases |x.sndQueue|
  {
    hide TimeDiff, Number, AnyDue, IsDue;
    NoneDue(env, sn);
    assert x.sndBuf[|x.sndBuf|..] == [];
    if TimeDiff(x.sndNxt, (x.sndUna + env.cwnd) % WORD) < 0 && x.sndQueue != [] {
      var g := Number(x, env, x.sndQueue[0]);
      var x1 := x.(sndQueue := x.sndQueue[1..], sndBuf := x.sndBuf + [g], sndNxt := (x.sndNxt + 1) % WORD);
      NumberNew(x, env, x.sndQueue[0]);
      NumbersNew(x1, env, sn);
      Appended(x.sndBuf, g, NumberAll(x1, env).sndBuf, env, sn);
    }
  }

  lemma NoneDue(env: FlushEnv, sn: int)
    ensures !AnyDue([], env, sn)
  {
  }

  lemma Appended(a: seq<Flight>, g: Flight, buf: seq<Flight>, env: FlushEnv, sn: int)
    requires a + [g] <= buf
    ensures a <= buf && buf[|a|..] == [g] + buf[|a| + 1..]
    ensures AnyDue(buf[|a|..], env, sn) <==> (g.seg.sn == sn && IsDue(g, env)) || AnyDue(buf[|a| + 1..], env, sn)
  {
    hide AnyDue, IsDue;
    assert buf[|a|..] == [g] + buf[|a| + 1..];
    AnyDueConcat([g], buf[|a| + 1..], env, sn);
  }

  // As many as the window takes beyond what is not acknowledged.
  lemma {:induction false} NumbersMany(x: Endpoint, env: FlushEnv)
    requires x.sndUna <= x.sndNxt && x.sndNxt + |x.sndQueue| < LIMIT && env.cwnd < LIMIT
    ensures var x' := NumberAll(x, env);
      x'.sndNxt == if x.sndUna + env.cwnd <= x.sndNxt then x.sndNxt else Min(x.sndNxt + |x.sndQueue|, x.sndUna + env.cwnd)
    decreases |x.sndQueue|
  {
    hide TimeDiff;
    TimeDiffExact(x.sndNxt, x.sndUna + env.cwnd);
    if x.sndNxt < x.sndUna + env.cwnd && x.sndQueue != [] {
      NumbersMany(x.(sndQueue := x.sndQueue[1..], sndBuf := x.sndBuf + [Number(x, env, x.sndQueue[0])], sndNxt := (x.sndNxt + 1) % WORD), env);
    }
  }

  lemma {:induction false} AcksPushNothing(e: Endpoint, acks: seq<(U32, U32)>, sn: int)
    ensures !Sends(AckSegments(e, acks), sn)
  {
    AcksSame(e, acks);
  }

  // A flush sends exactly the pieces that it numbers, those never sent, those whose time is up
  // and those that enough later ones have overtaken.
  lemma FlushSendsExactly(x: Endpoint, env: FlushEnv, f: seq<Piece>, sn: int)
    requires Sending(x, f)
    ensures var r := Flush(x, env);
      Sends(r.segments, sn) <==> x.sndNxt <= sn < r.endpoint.sndNxt || AnyDue(x.sndBuf, env, sn)
  {
    hide NumberAll, TransmitAll, DataSegments, AckSegments, Due, IsDue, AnyDue, Sends;
    var x0 := x.(acks := []);
    var e1 := NumberAll(x0, env);
    SendingNumbers(x, f);
    NumbersNew(x0, env, sn);
    var new' := e1.sndBuf[|x.sndBuf|..];
    assert e1.sndBuf == x.sndBuf + new';
    AnyDueConcat(x.sndBuf, new', env, sn);
    DataSendsDue(e1, e1.sndBuf, env, sn);
    AcksPushNothing(x, x.acks, sn);
    ProbesPushNothing(x, env, sn);
    SendsConcat(AckSegments(x, x.acks), ProbeSegments(x, env), sn);
    SendsConcat(AckSegments(x, x.acks) + ProbeSegments(x, env), DataSegments(e1, e1.sndBuf, env), sn);
  }

  lemma SendingNumbers(x: Endpoint, f: seq<Piece>)
    requires Sending(x, f)
    ensures x.sndNxt + |x.sndQueue| == |f| < LIMIT && forall g <- x.sndBuf :: g.seg.cmd == CMD_PUSH
  {
  }

  lemma ProbesPushNothing(e: Endpoint, env: FlushEnv, sn: int)
    ensures !Sends(ProbeSegments(e, env), sn)
  {
  }

  // A piece that was sent is not due by time before its timeout is over, which is that of the
  // connection for a new piece, half as much again or twice as much for one that timed out,
  // and the same for one that was overtaken; then it is.
  lemma DueAgain(e: Endpoint, g: Flight, env: FlushEnv, later: nat)
    requires IsDue(g, env) && later < LIMIT
    ensures var h := Transmitted(e, g, env);
      var wait := h.rto + if g.xmit == 0 then env.rtomin else 0;
      && (g.xmit == 0 ==> h.rto == env.rto)
      && (g.xmit > 0 && IsOver(g.resendts, env.current) ==> h.rto == (g.rto + if env.nodelay then env.rto / 2 else env.rto) % WORD)
      && (g.xmit > 0 && !IsOver(g.resendts, env.current) ==> h.rto == g.rto && h.fastack == 0)
      && h.xmit == (g.xmit + 1) % WORD && h.seg.sn == g.seg.sn && PieceOf(h.seg) == PieceOf(g.seg) && h.seg.ts == env.current
      && (wait < LIMIT ==> (IsOver(h.resendts, (env.current + later) % WORD) <==> later >= wait))
  {
    var h := Transmitted(e, g, env);
    DueMeans(g, env);
    OverMeans(g.resendts, env.current);
    var wait := h.rto + if g.xmit == 0 then env.rtomin else 0;
    if wait < LIMIT {
      Wrapped(env.current, wait, later);
    }
  }

  lemma Wrapped(clock: U32, wait: nat, later: nat)
    requires wait < LIMIT && later < LIMIT
    ensures IsOver((clock + wait) % WORD, (clock + later) % WORD) <==> later >= wait
  {
  }

  // ---- acknowledgements ----

  ghost predicate Answers(segments: seq<Segment>, sn: U32, ts: U32) {
    exists s <- segments :: s.cmd == CMD_ACK && s.sn == sn && s.ts == ts
  }

  lemma AnswersConcat(a: seq<Segment>, b: seq<Segment>, sn: U32, ts: U32)
    ensures Answers(a + b, sn, ts) <==> Answers(a, sn, ts) || Answers(b, sn, ts)
    ensures |a| == 1 ==> (Answers(a, sn, ts) <==> a[0].cmd == CMD_ACK && a[0].sn == sn && a[0].ts == ts)
  {
    if Answers(a, sn, ts) {
      var s :| s in a && s.cmd == CMD_ACK && s.sn == sn && s.ts == ts;
      assert s in a + b;
    }
    if Answers(b, sn, ts) {
      var s :| s in b && s.cmd == CMD_ACK && s.sn == sn && s.ts == ts;
      assert s in a + b;
    }
    if |a| == 1 {
      assert a[0] in a;
    }
  }

  lemma {:induction false} AcksAnswer(e: Endpoint, acks: seq<(U32, U32)>, sn: U32, ts: U32)
    ensures Answers(AckSegments(e, acks), sn, ts) <==> (sn, ts) in acks
  {
    hide Answers;
    if acks == [] {
      NoAnswer(sn, ts);
    } else {
      var one := Control(e, CMD_ACK, acks[0].0, acks[0].1);
      AcksAnswer(e, acks[1..], sn, ts);
      AnswersConcat([one], AckSegments(e, acks[1..]), sn, ts);
      assert acks == [acks[0]] + acks[1..];
    }
  }

  lemma NoAnswer(sn: U32, ts: U32)
    ensures !Answers([], sn, ts)
  {
  }

  lemma {:induction false} DataAnswersNothing(e: Endpoint, buf: seq<Flight>, env: FlushEnv, sn: U32, ts: U32)
    requires forall g <- buf :: g.seg.cmd == CMD_PUSH
    ensures !Answers(DataSegments(e, buf, env), sn, ts)
  {
    hide Due;
    if buf != [] {
      TransmittedSame(e, buf[0], env);
      DataAnswersNothing(e, buf[1..], env, sn, ts);
    }
  }

  // A flush acknowledges exactly what has arrived since the last one, with the time it was sent.
  lemma FlushAnswersExactly(x: Endpoint, env: FlushEnv, f: seq<Piece>, sn: U32, ts: U32)
    requires Sending(x, f)
    ensures var r := Flush(x, env);
      Answers(r.segments, sn, ts) <==> (sn, ts) in x.acks
  {
    hide NumberAll, TransmitAll, DataSegments, AckSegments, Due, Answers, AnyDue;
    var x0 := x.(acks := []);
    var e1 := NumberAll(x0, env);
    SendingNumbers(x, f);
    NumbersNew(x0, env, 0);
    var new' := e1.sndBuf[|x.sndBuf|..];
    assert e1.sndBuf == x.sndBuf + new';
    AcksAnswer(x, x.acks, sn, ts);
    DataAnswersNothing(e1, e1.sndBuf, env, sn, ts);
    ProbesAnswerNothing(x, env, sn, ts);
    AnswersConcat(AckSegments(x, x.acks), ProbeSegments(x, env), sn, ts);
    AnswersConcat(AckSegments(x, x.acks) + ProbeSegments(x, env), DataSegments(e1, e1.sndBuf, env), sn, ts);
  }

  lemma ProbesAnswerNothing(e: Endpoint, env: FlushEnv, sn: U32, ts: U32)
    ensures !Answers(ProbeSegments(e, env), sn, ts)
  {
  }

  // Every piece that arrives below the end of the window is acknowledged, also one that has
  // been received before, unless it is more than 2^31 numbers old; nothing else is.
  lemma ArrivalAcknowledged(y: Endpoint, s: Segment, f: seq<Piece>, n: int, d: nat)
    requires Receiving(y, f, n, d) && (s.cmd == CMD_PUSH ==> Genuine(s, f, n))
    ensures InputSegment(y, s).acks == y.acks + if s.cmd == CMD_PUSH && s.sn < y.rcvNxt + y.rcvWnd <= s.sn + LIMIT then [(s.sn, s.ts)] else []
  {
    hide TimeDiff, DropAcknowledged, ParseAck, Insert, Advance;
    var e1 := Shrink(y.(sndBuf := DropAcknowledged(y.sndBuf, s.una)));
    var e2 := e1.(acks := e1.acks + [(s.sn, s.ts)]);
    AdvanceSender(e2.(rcvBuf := Insert(e2.rcvBuf, s)));
    if s.cmd == CMD_PUSH {
      EndOfWindow(y, s.sn);
    } else {
      ParseAckReceiver(y, s);
    }
  }

  // The comparison with the end of the window, for all numbers.
  lemma EndOfWindow(y: Endpoint, sn: U32)
    requires sn < LIMIT && y.rcvNxt < LIMIT && y.rcvWnd < LIMIT
    ensures TimeDiff(sn, (y.rcvNxt + y.rcvWnd) % WORD) < 0 <==> sn < y.rcvNxt + y.rcvWnd <= sn + LIMIT
  {
  }

  // ---- what acknowledgements do ----

  lemma {:induction false} DropsBelow(buf: seq<Flight>, una: U32)
    requires AscendingFlights(buf) && una < LIMIT && forall g <- buf :: g.seg.sn < LIMIT
    ensures AscendingFlights(DropAcknowledged(buf, una)) && forall g :: g in DropAcknowledged(buf, una) <==> g in buf && g.seg.sn >= una
  {
    hide TimeDiff;
    if buf != [] {
      assert buf[0] in buf && buf == [buf[0]] + buf[1..];
      TimeDiffExact(una, buf[0].seg.sn);
      if una > buf[0].seg.sn {
        DropsBelow(buf[1..], una);
      } else {
        forall g <- buf
          ensures g.seg.sn >= una
        {
          var i :| 0 <= i < |buf| && buf[i] == g;
        }
      }
    }
  }

  lemma {:induction false} RemovesOne(buf: seq<Flight>, sn: U32)
    requires AscendingFlights(buf) && sn < LIMIT && forall g <- buf :: g.seg.sn < LIMIT
    ensures forall g :: g in Remove(buf, sn) <==> g in buf && g.seg.sn != sn
  {
    hide TimeDiff;
    if buf != [] {
      assert buf[0] in buf && buf == [buf[0]] + buf[1..];
      TimeDiffExact(sn, buf[0].seg.sn);
      forall g <- buf[1..]
        ensures g.seg.sn > buf[0].seg.sn
      {
        var i :| 0 <= i < |buf[1..]| && buf[1..][i] == g;
        assert buf[i + 1] == g;
      }
      if sn > buf[0].seg.sn {
        RemovesOne(buf[1..], sn);
      }
    }
  }

  // An arriving segment takes exactly the pieces it acknowledges out of the buffer: those
  // before its `una`, and the one it names if it is an acknowledgement.
  lemma AcknowledgedExactly(x: Endpoint, s: Segment, f: seq<Piece>)
    requires Sending(x, f) && s.una <= x.sndNxt && (s.cmd == CMD_ACK ==> s.sn < x.sndNxt)
    ensures forall g :: g in InputSegment(x, s).sndBuf <==> g in x.sndBuf && g.seg.sn >= s.una && !(s.cmd == CMD_ACK && g.seg.sn == s.sn)
  {
    hide TimeDiff, Remove, DropAcknowledged, InFlight, Advance, Insert, Shrink;
    DropsBelow(x.sndBuf, s.una);
    var x1 := x.(sndBuf := DropAcknowledged(x.sndBuf, s.una));
    ShrinkFields(x1);
    var e1 := Shrink(x1);
    if s.cmd == CMD_ACK {
      RemovesOne(e1.sndBuf, s.sn);
      NotInFlight(x1, s.sn);
      ShrinkFields(ParseAck(e1, s.sn));
    } else {
      ParseDataSender(e1.(acks := e1.acks + [(s.sn, s.ts)]), s);
    }
  }

  // A number outside the range in flight names no piece of the buffer.
  lemma NotInFlight(x: Endpoint, sn: U32)
    requires AscendingFlights(x.sndBuf) && x.sndNxt < LIMIT && sn < x.sndNxt && forall g <- x.sndBuf :: g.seg.sn < x.sndNxt
    ensures !InFlight(Shrink(x), sn) ==> forall g <- x.sndBuf :: g.seg.sn != sn
  {
    hide TimeDiff;
    var e := Shrink(x);
    if x.sndBuf != [] {
      assert x.sndBuf[0] in x.sndBuf;
      TimeDiffExact(sn, e.sndUna);
      TimeDiffExact(sn, e.sndNxt);
      forall g <- x.sndBuf
        ensures g.seg.sn >= e.sndUna
      {
        var i :| 0 <= i < |x.sndBuf| && x.sndBuf[i] == g;
      }
    }
  }

  // The largest number acknowledged by a datagram counts once for every earlier piece that is
  // still in flight, and for no other.
  lemma SkippedExactly(x: Endpoint, sn: U32, f: seq<Piece>, i: nat)
    requires Sending(x, f) && x.sndUna <= sn < x.sndNxt && i < |x.sndBuf|
    ensures var x' := FinishInput(x, MaxAck(sn));
      && |x'.sndBuf| == |x.sndBuf|
      && x'.sndBuf[i] == x.sndBuf[i].(fastack := if x.sndBuf[i].seg.sn < sn then (x.sndBuf[i].fastack + 1) % WORD else x.sndBuf[i].fastack)
  {
    hide TimeDiff, CountSkipped;
    TimeDiffExact(sn, x.sndUna);
    TimeDiffExact(sn, x.sndNxt);
    CountsSkipped(x.sndBuf, sn, i);
  }

  lemma {:induction false} CountsSkipped(buf: seq<Flight>, sn: U32, i: nat)
    requires AscendingFlights(buf) && sn < LIMIT && i < |buf| && forall g <- buf :: g.seg.sn < LIMIT
    ensures |CountSkipped(buf, sn)| == |buf|
    ensures CountSkipped(buf, sn)[i] == buf[i].(fastack := if buf[i].seg.sn < sn then (buf[i].fastack + 1) % WORD else buf[i].fastack)
  {
    hide TimeDiff;
    assert buf[0] in buf;
    TimeDiffExact(sn, buf[0].seg.sn);
    SkippedSame(buf, sn);
    if sn >= buf[0].seg.sn {
      if i > 0 {
        CountsSkipped(buf[1..], sn, i - 1);
      }
    } else {
      assert i > 0 ==> buf[0].seg.sn < buf[i].seg.sn;
    }
  }
}
