// What has arrived is not forgotten: once every command of a packet has arrived, in its window
// and with room for it, the packet leaves as soon as all before it can.

module EnetLiveness {
  import opened Words
  import opened EnetReliable
  import opened EnetRuns

  // Command `i` of a packet is in what waits for it.
  predicate Here(e: Incoming, p: Packet, unit: nat, i: nat) {
    |p| <= unit || (i < |e.have| && e.have[i])
  }

  // Command `i` of packet `k` is there, or the packet has left.
  ghost predicate GotAt(c: Channel, packets: seq<Packet>, unit: nat, ks: seq<nat>, k: nat, i: nat)
    requires |ks| == |c.incoming| && k < |packets|
  {
    k < |c.dispatched| || exists j :: 0 <= j < |ks| && ks[j] == k && Here(c.incoming[j], packets[k], unit, i)
  }

  ghost predicate Got(c: Channel, packets: seq<Packet>, unit: nat, ks: seq<nat>, k: nat, i: nat) {
    Holding(c, packets, unit, ks) && k < |packets| && GotAt(c, packets, unit, ks, k, i)
  }

  lemma HoldingSize(c: Channel, packets: seq<Packet>, unit: nat, ks: seq<nat>)
    requires Holding(c, packets, unit, ks)
    ensures |ks| == |c.incoming| && |c.dispatched| <= |packets| && unit > 0
  {
  }

  // Which packets wait is told by the channel.
  lemma OneHolding(c: Channel, packets: seq<Packet>, unit: nat, ks: seq<nat>, ks': seq<nat>)
    requires Holding(c, packets, unit, ks) && Holding(c, packets, unit, ks')
    ensures ks == ks'
  {
    hide Holding, Near, First;
    HoldingSize(c, packets, unit, ks);
    HoldingSize(c, packets, unit, ks');
    AtNumbers(c, packets, unit, ks);
    AtNumbers(c, packets, unit, ks');
    HoldingFacts(c, packets, unit, ks);
    HoldingFacts(c, packets, unit, ks');
    var d := |c.dispatched|;
    var r := First(packets, unit, d);
    var at := NumbersAscend(packets, unit, ks, d, r);
    var at' := NumbersAscend(packets, unit, ks', d, r);
    forall j | 0 <= j < |ks|
      ensures ks[j] == ks'[j]
    {
      Compared(r, at[j], at'[j]);
      WhichPacket(packets, unit, ks[j], ks'[j]);
      WhichPacket(packets, unit, ks'[j], ks[j]);
    }
  }

  // ---- what is there stays ----

  lemma {:induction false} DispatchGot(c: Channel, packets: seq<Packet>, unit: nat, ks: seq<nat>, k: nat, i: nat) returns (ks': seq<nat>)
    requires Got(c, packets, unit, ks, k, i)
    ensures Got(Dispatch(c), packets, unit, ks', k, i)
    decreases |c.incoming|
  {
    hide Holding, Ready, Here;
    HoldingSize(c, packets, unit, ks);
    if Ready(c) {
      HoldingFacts(c, packets, unit, ks);
      DispatchOneHolds(c, packets, unit, ks);
      FrontIsNext(c, packets, unit, ks);
      OneGot(c, packets, unit, ks, k, i);
      ks' := DispatchGot(DispatchOne(c), packets, unit, ks[1..], k, i);
    } else {
      ks' := ks;
    }
  }

  lemma OneGot(c: Channel, packets: seq<Packet>, unit: nat, ks: seq<nat>, k: nat, i: nat)
    requires Got(c, packets, unit, ks, k, i) && Ready(c) && ks != [] && ks[0] == |c.dispatched|
    requires Holding(DispatchOne(c), packets, unit, ks[1..]) && |DispatchOne(c).dispatched| == |c.dispatched| + 1
    ensures Got(DispatchOne(c), packets, unit, ks[1..], k, i)
  {
    hide Holding, Here;
    HoldingSize(c, packets, unit, ks);
    HoldingSize(DispatchOne(c), packets, unit, ks[1..]);
    if k > |c.dispatched| {
      var j :| 0 <= j < |ks| && ks[j] == k && Here(c.incoming[j], packets[k], unit, i);
      assert ks[1..][j - 1] == k && DispatchOne(c).incoming[j - 1] == c.incoming[j];
    }
  }

  lemma InsertGot(c: Channel, packets: seq<Packet>, unit: nat, ks: seq<nat>, at: nat, e: Incoming, k': nat, k: nat, i: nat)
    requires Got(c, packets, unit, ks, k, i) && at <= |c.incoming| && Holding(Inserted(c, at, e), packets, unit, ks[..at] + [k'] + ks[at..])
    ensures Got(Inserted(c, at, e), packets, unit, ks[..at] + [k'] + ks[at..], k, i)
  {
    hide Holding, Here;
    HoldingSize(c, packets, unit, ks);
    var ks1, c1 := ks[..at] + [k'] + ks[at..], Inserted(c, at, e);
    HoldingSize(c1, packets, unit, ks1);
    if k >= |c.dispatched| {
      var j :| 0 <= j < |ks| && ks[j] == k && Here(c.incoming[j], packets[k], unit, i);
      var j1 := if j < at then j else j + 1;
      assert ks1[j1] == k && c1.incoming[j1] == c.incoming[j];
    }
  }

  lemma FillGot(c: Channel, packets: seq<Packet>, unit: nat, ks: seq<nat>, at: nat, i': nat, k: nat, i: nat) returns (ks': seq<nat>)
    requires Holding(c, packets, unit, ks) && !Ready(c) && at < |ks| && ks[at] < |packets| && k < |packets|
    requires var p := packets[ks[at]]; |p| > unit && i' < Count(p, unit)
    requires (k == ks[at] && i == i') || Got(c, packets, unit, ks, k, i)
    ensures var p := packets[ks[at]];
      && at < |c.incoming| && WellMade(c.incoming[at]) && i' < |c.incoming[at].have|
      && i' * unit + |SliceOf(p, unit, i')| <= |c.incoming[at].data|
      && var c' := FillAt(c, at, i', i' * unit, SliceOf(p, unit, i'));
         Got(c', packets, unit, ks', k, i)
  {
    HoldingSize(c, packets, unit, ks);
    var p, e := packets[ks[at]], c.incoming[at];
    WaitsPart(c, packets, unit, ks, at);
    FillPart(e, p, unit, i');
    var e' := Fill(e, i', i' * unit, SliceOf(p, unit, i'));
    var c1 := c.(incoming := c.incoming[at := e']);
    FilledWaits(c, packets, unit, ks, at, e');
    ReplaceHolds(c, packets, unit, ks, at, e');
    hide Holding, SliceOf, PartOf;
    if k >= |c.dispatched| {
      if k == ks[at] && i == i' {
        assert Here(c1.incoming[at], packets[k], unit, i);
      } else {
        var j :| 0 <= j < |ks| && ks[j] == k && Here(c.incoming[j], packets[k], unit, i);
        assert Here(c1.incoming[j], packets[k], unit, i);
      }
    }
    ks' := ks;
    if !e.have[i'] && e.remaining - 1 == 0 {
      ks' := DispatchGot(c1, packets, unit, ks, k, i);
    }
  }

  // A new packet is put in its place: what was there stays, and so does the new one.
  lemma QueueGot(c: Channel, packets: seq<Packet>, unit: nat, ks: seq<nat>, e: Incoming, k': nat, room: bool, k: nat, i: nat)
      returns (ks': seq<nat>, n: nat)
    requires Holding(c, packets, unit, ks) && k' < |packets| && Waits(e, packets, unit, k') && k < |packets|
    requires Recent(First(packets, unit, |c.dispatched|), NumberOf(packets, unit, k'))
    requires Got(c, packets, unit, ks, k, i) || (k == k' && |packets[k]| <= unit)
    ensures var q := Queue(c, e, room);
      q.Queued? ==>
        && Holding(q.channel, packets, unit, ks') && !Ready(q.channel) && Got(q.channel, packets, unit, ks', k, i)
        && (e.remaining > 0 ==> n == q.at < |ks'| && ks'[n] == k')
  {
    hide Waits, Near, InWindow, Ready, Dispatch, Seek, First, Recent, Holding, GotAt;
    var d := |c.dispatched|;
    LastNumber(c, packets, unit, ks);
    HoldingSize(c, packets, unit, ks);
    ks', n := QueueHolds(c, packets, unit, ks, e, k', room);
    var q := Queue(c, e, room);
    if q.Queued? {
      RecentWindow(First(packets, unit, d), NumberOf(packets, unit, k'));
      AheadFits(First(packets, unit, d));
      WaitsNumber(e, packets, unit, k');
      NotBefore(packets, unit, d, k');
      PlaceFor(c, packets, unit, ks, e.number, k');
      var at := Seek(c.last, c.incoming, e.number).at;
      InsertHolds(c, packets, unit, ks, at, e, k');
      var c1, ks1 := Inserted(c, at, e), ks[..at] + [k'] + ks[at..];
      if Got(c, packets, unit, ks, k, i) {
        InsertGot(c, packets, unit, ks, at, e, k', k, i);
      } else {
        WholeGot(c1, packets, unit, ks1, at, k, i);
      }
      var ks2 := DispatchGot(c1, packets, unit, ks1, k, i);
      OneHolding(q.channel, packets, unit, ks', ks2);
    }
  }

  lemma WholeGot(c: Channel, packets: seq<Packet>, unit: nat, ks: seq<nat>, at: nat, k: nat, i: nat)
    requires Holding(c, packets, unit, ks) && at < |ks| && ks[at] == k < |packets| && |packets[k]| <= unit
    ensures Got(c, packets, unit, ks, k, i)
  {
    HoldingSize(c, packets, unit, ks);
    assert Here(c.incoming[at], packets[k], unit, i);
  }

  // Everything in time: not too early for the window, with room, and not closing.
  predicate InTime(r: nat, a: nat, p: Packet, unit: nat, maximum: nat, room: bool, closing: bool)
    requires unit > 0
  {
    a < r + Ahead(r) && room && !closing && |p| <= maximum && Count(p, unit) <= MAXIMUM_FRAGMENT_COUNT
  }

  // Whatever arrives, what is there stays there; and what arrives in time is there.
  lemma FragmentGot(c: Channel, packets: seq<Packet>, unit: nat, ks: seq<nat>, k': nat, i': nat, maximum: nat, room: bool, closing: bool, k: nat, i: nat)
      returns (ks': seq<nat>)
    requires Holding(c, packets, unit, ks) && !Ready(c) && Tidy(c) && k < |packets|
    requires k' < |packets| && |packets[k']| > unit && i' < Count(packets[k'], unit)
    requires Recent(First(packets, unit, |c.dispatched|), NumberOf(packets, unit, k'))
    requires Got(c, packets, unit, ks, k, i) ||
      (k == k' && i == i' && k >= |c.dispatched| &&
       InTime(First(packets, unit, |c.dispatched|), NumberOf(packets, unit, k), packets[k], unit, maximum, room, closing))
    ensures var c' := HandleFragment(c, CommandOf(packets[k'], unit, NumberOf(packets, unit, k'), i'), maximum, room, closing).0;
      Got(c', packets, unit, ks', k, i)
  {
    hide Holding, Ready, FillAt, First, Recent, InWindow, Seek, Queue, WellMade, Awaiting, GotAt;
    ks' := ks;
    var d, p := |c.dispatched|, packets[k'];
    LastNumber(c, packets, unit, ks);
    var r, a := First(packets, unit, d), NumberOf(packets, unit, k');
    var f := CommandOf(p, unit, a, i');
    assert f.data == SliceOf(p, unit, i');
    FragmentBounds(p, unit, i');
    CountFits(p, unit);
    RecentWindow(r, a);
    LastIsNoPlace(c, packets, unit, ks);
    AheadFits(r);
    QueueLast(c, Awaiting(c.last, f.count, f.total), room);
    if k == k' && k >= d {
      NumberAfter(packets, unit, d, k);
    }
    if InWindow(c.last, f.start) && f.start != c.last && |f.data| <= maximum && FragmentFits(f, maximum) {
      PlaceFor(c, packets, unit, ks, f.start, k');
      var place := Seek(c.last, c.incoming, f.start);
      if place.Taken? {
        var ks0 := FillHolds(c, packets, unit, ks, place.at, i');
        ks' := FillGot(c, packets, unit, ks, place.at, i', k, i);
      } else if !closing {
        var e := Awaiting(f.start, f.count, f.total);
        AwaitingWaits(packets, unit, k');
        var ks1, n := QueueHolds(c, packets, unit, ks, e, k', room);
        var q := Queue(c, e, room);
        if q.Queued? {
          if Got(c, packets, unit, ks, k, i) {
            var ks2, n2 := QueueGot(c, packets, unit, ks, e, k', room, k, i);
            OneHolding(q.channel, packets, unit, ks1, ks2);
          }
          var ks3 := FillHolds(q.channel, packets, unit, ks1, n, i');
          ks' := FillGot(q.channel, packets, unit, ks1, n, i', k, i);
        } else if room {
          QueuedGap(c, e);
        }
      }
    }
  }

  lemma NumberAfter(packets: seq<Packet>, unit: nat, d: nat, k: nat)
    requires unit > 0 && d <= k < |packets|
    ensures First(packets, unit, d) < NumberOf(packets, unit, k)
  {
    FirstMonotone(packets, unit, d, k);
  }

  lemma ArrivalGot(c: Channel, packets: seq<Packet>, unit: nat, ks: seq<nat>, k': nat, i': nat, maximum: nat, room: bool, closing: bool, k: nat, i: nat)
      returns (ks': seq<nat>)
    requires Holding(c, packets, unit, ks) && !Ready(c) && Tidy(c) && k < |packets| && k' < |packets| && i' < Count(packets[k'], unit)
    requires Recent(First(packets, unit, |c.dispatched|), NumberOf(packets, unit, k'))
    requires Got(c, packets, unit, ks, k, i) ||
      (k == k' && i == i' && InTime(First(packets, unit, |c.dispatched|), NumberOf(packets, unit, k), packets[k], unit, maximum, room, closing))
    ensures var c' := Handle(c, CommandOf(packets[k'], unit, NumberOf(packets, unit, k'), i'), maximum, room, closing).0;
      Got(c', packets, unit, ks', k, i)
  {
    hide Holding, Ready, First, Recent, Queue, HandleFragment, InWindow, Seek;
    ks' := ks;
    LastNumber(c, packets, unit, ks);
    HoldingSize(c, packets, unit, ks);
    var d, p, r, a := |c.dispatched|, packets[k'], First(packets, unit, |c.dispatched|), NumberOf(packets, unit, k');
    if k >= d && k == k' {
      NumberAfter(packets, unit, d, k);
    }
    if |p| > unit {
      ks' := FragmentGot(c, packets, unit, ks, k', i', maximum, room, closing, k, i);
    } else if |p| <= maximum && !closing {
      var e := Incoming(a % NUMBERS, 0, 0, [], p);
      WholeWaits(packets, unit, k');
      var ks1, n := QueueGot(c, packets, unit, ks, e, k', room, k, i);
      if Queue(c, e, room).Queued? {
        ks' := ks1;
      } else if !Got(c, packets, unit, ks, k, i) {
        RecentWindow(r, a);
        AheadFits(r);
        PlaceFor(c, packets, unit, ks, e.number, k);
        NotQueued(c, e);
        WholeGot(c, packets, unit, ks, Seek(c.last, c.incoming, e.number).at, k, i);
      }
    }
  }

  // What is not put in although there is room is there, or out of the window.
  lemma NotQueued(c: Channel, e: Incoming)
    requires !Queue(c, e, true).Queued? && InWindow(c.last, e.number) && e.number != c.last
    ensures Seek(c.last, c.incoming, e.number).Taken?
  {
  }

  // ---- whole runs ----

  // Command `i` of packet `k` arrives in time, or when the packet has long left.
  ghost predicate Heard(trace: seq<Link>, events: seq<Event>, unit: nat, t: nat, k: nat, i: nat)
    requires unit > 0
  {
    && t < |events| && t < |trace| && events[t].Arrived? && events[t].k == k && events[t].i == i
    && k < |trace[t].packets| && |trace[t].channel.dispatched| <= |trace[t].packets|
    && InTime(First(trace[t].packets, unit, |trace[t].channel.dispatched|), NumberOf(trace[t].packets, unit, k), trace[t].packets[k], unit,
              events[t].maximum, events[t].room, events[t].closing)
  }

  lemma GrowGot(c: Channel, packets: seq<Packet>, p: Packet, unit: nat, ks: seq<nat>, k: nat, i: nat)
    requires Got(c, packets, unit, ks, k, i)
    ensures Got(c, packets + [p], unit, ks, k, i)
  {
    hide Holding;
    HoldingSize(c, packets, unit, ks);
    GrowHolds(c, packets, p, unit, ks);
    assert (packets + [p])[k] == packets[k];
  }

  // What was heard once is there at the end.
  lemma {:induction false} HeardStays(trace: seq<Link>, events: seq<Event>, unit: nat, t: nat, k: nat, i: nat) returns (ks: seq<nat>)
    requires Run(trace, events, unit) && Heard(trace, events, unit, t, k, i)
    ensures var s := trace[|events|]; Got(s.channel, s.packets, unit, ks, k, i)
    decreases |events|
  {
    var n := |events| - 1;
    RunTake(trace, events, unit, n);
    var s, s', event := trace[n], trace[n + 1], events[n];
    assert Step(s, event, s', unit);
    var before := RunHolds(trace[..n + 1], events[..n], unit);
    hide Holding, Ready, Got, First, Recent, Handle, InTime;
    HoldingFacts(s.channel, s.packets, unit, before);
    if t < n {
      var earlier := HeardStays(trace[..n + 1], events[..n], unit, t, k, i);
      GotHolds(s.channel, s.packets, unit, earlier, k, i);
      OneHolding(s.channel, s.packets, unit, before, earlier);
    }
    match event
    case Sent(p) =>
      GrowGot(s.channel, s.packets, p, unit, before, k, i);
      ks := before;
    case Arrived(k', i', maximum, room, closing) =>
      PacketsOf(s.channel, s.packets, unit, before, k, i);
      ks := ArrivalGot(s.channel, s.packets, unit, before, k', i', maximum, room, closing, k, i);
  }

  lemma GotHolds(c: Channel, packets: seq<Packet>, unit: nat, ks: seq<nat>, k: nat, i: nat)
    requires Got(c, packets, unit, ks, k, i)
    ensures Holding(c, packets, unit, ks) && k < |packets|
  {
  }

  lemma PacketsOf(c: Channel, packets: seq<Packet>, unit: nat, ks: seq<nat>, k: nat, i: nat)
    ensures Got(c, packets, unit, ks, k, i) ==> k < |packets|
  {
  }

  // The next packet, once all of it is there, can leave.
  lemma AllThere(c: Channel, packets: seq<Packet>, unit: nat, ks: seq<nat>)
    requires Holding(c, packets, unit, ks) && |c.dispatched| < |packets|
    requires forall i: nat | i < Count(packets[|c.dispatched|], unit) :: Got(c, packets, unit, ks, |c.dispatched|, i)
    ensures Ready(c)
  {
    HoldingSize(c, packets, unit, ks);
    var d := |c.dispatched|;
    var p := packets[d];
    CountPositive(p, unit);
    FrontHere(c, packets, unit, ks, 0);
    var e := c.incoming[0];
    assert Waits(e, packets, unit, d);
    NextNumber(First(packets, unit, d));
    if |p| > unit {
      forall i | 0 <= i < |e.have|
        ensures e.have[i]
      {
        FrontHere(c, packets, unit, ks, i);
      }
    }
    MissingNone(e.have);
  }

  lemma FrontHere(c: Channel, packets: seq<Packet>, unit: nat, ks: seq<nat>, i: nat)
    requires Got(c, packets, unit, ks, |c.dispatched|, i)
    ensures ks != [] && c.incoming != [] && ks[0] == |c.dispatched| && Here(c.incoming[0], packets[|c.dispatched|], unit, i)
  {
    HoldingSize(c, packets, unit, ks);
    var j :| 0 <= j < |ks| && ks[j] == |c.dispatched| && Here(c.incoming[j], packets[|c.dispatched|], unit, i);
    OnlyFirst(ks, |c.dispatched|, j);
  }

  lemma OnlyFirst(ks: seq<nat>, d: nat, j: nat)
    requires j < |ks| && ks[j] == d <= ks[0] && forall i, l | 0 <= i < l < |ks| :: ks[i] < ks[l]
    ensures j == 0
  {
  }

  ghost predicate HeardEver(trace: seq<Link>, events: seq<Event>, unit: nat, k: nat, i: nat)
    requires unit > 0
  {
    exists t :: Heard(trace, events, unit, t, k, i)
  }

  // When every command of the first `n` packets has been heard, these packets have left.
  lemma HeardAllOut(trace: seq<Link>, events: seq<Event>, unit: nat, n: nat)
    requires Run(trace, events, unit) && n <= |trace[|events|].packets|
    requires forall k: nat, i: nat | k < n && i < Count(trace[|events|].packets[k], unit) :: HeardEver(trace, events, unit, k, i)
    ensures n <= |trace[|events|].channel.dispatched|
  {
    var s := trace[|events|];
    var ks := RunHolds(trace, events, unit);
    var d := |s.channel.dispatched|;
    hide Holding, Ready, Got, Heard;
    HoldingSize(s.channel, s.packets, unit, ks);
    if d < n {
      forall i: nat | i < Count(s.packets[d], unit)
        ensures Got(s.channel, s.packets, unit, ks, d, i)
      {
        assert HeardEver(trace, events, unit, d, i);
        var t :| Heard(trace, events, unit, t, d, i);
        var ks' := HeardStays(trace, events, unit, t, d, i);
        GotHolds(s.channel, s.packets, unit, ks', d, i);
        OneHolding(s.channel, s.packets, unit, ks, ks');
      }
      AllThere(s.channel, s.packets, unit, ks);
    }
  }
}
