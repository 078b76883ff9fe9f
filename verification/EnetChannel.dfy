// A reliable channel as the C code runs it: the sender cuts packets up in a loop and
// numbers the pieces, the receiver searches and updates its list of waiting commands in place.

module EnetChannel {
  import opened Words
  import opened EnetReliable
  import opened EnetRuns

  // All commands of a packet, up to command `n`.
  function Commands(p: Packet, unit: nat, first: nat, n: nat): (r: seq<Command>)
    requires unit > 0 && n <= Count(p, unit)
    ensures |r| == n
  {
    if n == 0 then [] else Commands(p, unit, first, n - 1) + [CommandOf(p, unit, first, n - 1)]
  }

  // The data of the first `n` fragments, one after the other.
  function Tiled(p: Packet, unit: nat, n: nat): seq<Byte>
    requires unit > 0 && |p| > unit && n <= Count(p, unit)
  {
    if n == 0 then [] else Tiled(p, unit, n - 1) + SliceOf(p, unit, n - 1)
  }

  // The fragments tile the packet: no byte is left out or sent twice.
  lemma {:induction false} FragmentsTile(p: Packet, unit: nat, n: nat)
    requires unit > 0 && |p| > unit && n <= Count(p, unit)
    ensures n < Count(p, unit) ==> n * unit <= |p| && Tiled(p, unit, n) == p[..n * unit]
    ensures n == Count(p, unit) ==> Tiled(p, unit, n) == p
  {
    if n == 0 {
      CountPositive(p, unit);
    } else {
      FragmentsTile(p, unit, n - 1);
      FragmentBounds(p, unit, n - 1);
      var a, b := (n - 1) * unit, End(p, unit, n - 1);
      assert p[..a] + p[a..b] == p[..b];
    }
  }

  class ReliableSender {
    const unit: nat
    var outgoingReliableSequenceNumber: U16
    var outgoing: seq<Command>
    // How many numbers were given out so far, and to which packets.
    ghost var sent: nat
    ghost var packets: seq<Packet>

    ghost predicate Valid()
      reads this
    {
      unit > 0 && outgoingReliableSequenceNumber == sent % NUMBERS
    }

    ghost predicate Consistent()
      reads this
    {
      Valid() && sent == First(packets, unit, |packets|)
    }

    constructor (unit: nat)
      requires unit > 0
      ensures Consistent() && this.unit == unit && outgoing == [] && packets == []
    {
      this.unit, outgoingReliableSequenceNumber, outgoing, sent, packets := unit, 0, [], 0, [];
    }

    // Gives a command the next number and queues it.
    method Setup(command: Command)
      requires Valid()
      modifies this`outgoingReliableSequenceNumber, this`outgoing, this`sent
      ensures Valid() && sent == old(sent) + 1
      ensures outgoing == old(outgoing) + [command.(number := sent % NUMBERS)]
    {
      NextNumber(sent);
      outgoingReliableSequenceNumber := (outgoingReliableSequenceNumber + 1) % NUMBERS;
      sent := sent + 1;
      outgoing := outgoing + [command.(number := outgoingReliableSequenceNumber)];
    }

    // Queues a reliable packet: whole, or in fragments that the receiver puts together.
    method Send(packet: Packet, maximum: nat) returns (code: int)
      requires Consistent()
      modifies this`outgoingReliableSequenceNumber, this`outgoing, this`sent, this`packets
      ensures Consistent()
      ensures code == if |packet| > maximum || Count(packet, unit) > MAXIMUM_FRAGMENT_COUNT then -1 else 0
      ensures code != 0 ==> outgoing == old(outgoing) && packets == old(packets)
      ensures code == 0 ==>
        && packets == old(packets) + [packet]
        && outgoing == old(outgoing) + Commands(packet, unit, NumberOf(packets, unit, |old(packets)|), Count(packet, unit))
    {
      hide CommandOf, Count, Commands, End;
      SentNext(packets, packet, unit);
      CountOf(packet, unit);
      if |packet| > maximum {
        return -1;
      }
      if |packet| > unit {
        var fragmentCount := (|packet| + unit - 1) / unit;
        if fragmentCount > MAXIMUM_FRAGMENT_COUNT {
          return -1;
        }
        var start := (outgoingReliableSequenceNumber + 1) % NUMBERS;
        NextNumber(sent);
        var fragments := Cut(packet, fragmentCount, start);
        SetupAll(packet, fragments);
      } else {
        WholeCommand(packet, unit, sent + 1);
        Setup(SendReliable(0, packet));
      }
      packets := packets + [packet];
      code := 0;
    }

    // The fragments of a packet, not yet numbered.
    method Cut(packet: Packet, fragmentCount: nat, start: U16) returns (fragments: seq<Command>)
      requires unit > 0 && |packet| > unit && fragmentCount == Count(packet, unit)
      ensures |fragments| == fragmentCount
      ensures forall i | 0 <= i < fragmentCount ::
        fragments[i] == SendFragment(0, start, SliceOf(packet, unit, i), fragmentCount, i, i * unit, |packet|)
    {
      fragments := [];
      var fragmentNumber, fragmentOffset, fragmentLength := 0, 0, unit;
      CountPositive(packet, unit);
      while fragmentOffset < |packet|
        invariant 0 <= fragmentNumber <= fragmentCount && |fragments| == fragmentNumber
        invariant fragmentNumber < fragmentCount ==> fragmentLength == unit && fragmentOffset == fragmentNumber * unit < |packet|
        invariant fragmentNumber == fragmentCount ==> fragmentOffset == |packet|
        invariant forall i | 0 <= i < fragmentNumber ::
          fragments[i] == SendFragment(0, start, SliceOf(packet, unit, i), fragmentCount, i, i * unit, |packet|)
        decreases fragmentCount - fragmentNumber
      {
        FragmentBounds(packet, unit, fragmentNumber);
        if fragmentNumber + 1 < fragmentCount {
          FragmentBounds(packet, unit, fragmentNumber + 1);
        }
        if |packet| - fragmentOffset < fragmentLength {
          fragmentLength := |packet| - fragmentOffset;
        }
        var fragment := SendFragment(0, start, packet[fragmentOffset..fragmentOffset + fragmentLength], fragmentCount, fragmentNumber, fragmentOffset, |packet|);
        fragments := fragments + [fragment];
        fragmentNumber := fragmentNumber + 1;
        fragmentOffset := fragmentOffset + fragmentLength;
      }
    }

    method SetupAll(packet: Packet, fragments: seq<Command>)
      requires Valid() && |packet| > unit && |fragments| == Count(packet, unit)
      requires forall i | 0 <= i < |fragments| ::
        fragments[i] == SendFragment(0, (sent + 1) % NUMBERS, SliceOf(packet, unit, i), Count(packet, unit), i, i * unit, |packet|)
      modifies this`outgoingReliableSequenceNumber, this`outgoing, this`sent
      ensures Valid() && sent == old(sent) + Count(packet, unit)
      ensures outgoing == old(outgoing) + Commands(packet, unit, old(sent) + 1, Count(packet, unit))
    {
      hide Count, SliceOf, End;
      var i := 0;
      while i < |fragments|
        invariant 0 <= i <= |fragments| && Valid() && sent == old(sent) + i
        invariant outgoing == old(outgoing) + Commands(packet, unit, old(sent) + 1, i)
      {
        FragmentCommand(packet, unit, old(sent) + 1, i);
        Setup(fragments[i]);
        i := i + 1;
      }
    }
  }

  lemma SentNext(packets: seq<Packet>, p: Packet, unit: nat)
    requires unit > 0
    ensures var packets' := packets + [p];
      && First(packets', unit, |packets|) == First(packets, unit, |packets|)
      && First(packets', unit, |packets'|) == First(packets, unit, |packets|) + Count(p, unit)
  {
    FirstGrows(packets, [p], unit, |packets|);
  }

  lemma CountOf(p: Packet, unit: nat)
    requires unit > 0
    ensures Count(p, unit) == if |p| > unit then (|p| + unit - 1) / unit else 1
  {
  }

  lemma WholeCommand(p: Packet, unit: nat, first: nat)
    requires unit > 0 && |p| <= unit
    ensures Count(p, unit) == 1 && Commands(p, unit, first, 1) == [SendReliable(first % NUMBERS, p)]
  {
    assert Commands(p, unit, first, 0) == [];
  }

  lemma FragmentCommand(p: Packet, unit: nat, first: nat, i: nat)
    requires unit > 0 && |p| > unit && i < Count(p, unit)
    ensures CommandOf(p, unit, first, i) == SendFragment((first + i) % NUMBERS, first % NUMBERS, SliceOf(p, unit, i), Count(p, unit), i, i * unit, |p|)
  {
  }

  class ReliableChannel {
    var last: U16
    var incoming: seq<Incoming>
    var dispatched: seq<Packet>

    ghost function Model(): Channel
      reads this
    {
      Channel(last, incoming, dispatched)
    }

    constructor ()
      ensures Model() == Channel(0, [], [])
    {
      last, incoming, dispatched := 0, [], [];
    }

    // Searches the list from the back.
    method Find(number: U16) returns (place: Place)
      ensures place == Seek(last, incoming, number)
    {
      var i := |incoming|;
      assert incoming[..i] == incoming;
      while i > 0
        invariant 0 <= i <= |incoming| && Seek(last, incoming[..i], number) == Seek(last, incoming, number)
      {
        var e := incoming[i - 1].number;
        assert incoming[..i][..i - 1] == incoming[..i - 1];
        if number >= last {
          if e < last {
            i := i - 1;
            continue;
          }
        } else if e >= last {
          return Gap(i);
        }
        if e <= number {
          if e < number {
            return Gap(i);
          }
          return Taken(i - 1);
        }
        i := i - 1;
      }
      place := Gap(0);
    }

    // Walks over the complete packets that are next in number, then moves them all.
    method DispatchIncoming() returns (ghost n: nat)
      modifies this
      ensures Model() == Dispatch(old(Model())) && n == Leaving(old(Model()))
    {
      hide Dispatch, Leaving, Ready, DispatchOne, DataOf;
      var i := 0;
      n := Leaving(Model());
      ghost var c := Model();
      DataOfNone(incoming);
      assert incoming[0..] == incoming && dispatched + [] == dispatched;
      while i < |incoming|
        invariant 0 <= i <= |incoming| && incoming == c.incoming && dispatched == c.dispatched
        invariant Dispatch(Channel(last, incoming[i..], dispatched + DataOf(incoming[..i]))) == Dispatch(c)
        invariant i + Leaving(Channel(last, incoming[i..], dispatched + DataOf(incoming[..i]))) == n
      {
        ghost var now := Channel(last, incoming[i..], dispatched + DataOf(incoming[..i]));
        DispatchNext(now);
        var e := incoming[i];
        if e.remaining > 0 || e.number != (last + 1) % NUMBERS {
          break;
        }
        DataOfMore(incoming, i);
        assert incoming[i..][1..] == incoming[i + 1..];
        ConcatAssociative(dispatched, DataOf(incoming[..i]), [e.data]);
        last := e.number;
        if e.fragmentCount > 0 {
          last := (last + e.fragmentCount - 1) % NUMBERS;
        }
        i := i + 1;
      }
      DispatchNext(Channel(last, incoming[i..], dispatched + DataOf(incoming[..i])));
      dispatched, incoming := dispatched + DataOf(incoming[..i]), incoming[i..];
    }

    // Puts a new packet in its place; `at` tells where it then stands, if it is incomplete.
    method QueueIncoming(e: Incoming, room: bool) returns (answer: int, at: nat)
      modifies this
      ensures match Queue(old(Model()), e, room)
              case Queued(c, n) => answer == 1 && Model() == c && at == n
              case Discarded => answer == 0 && Model() == old(Model())
              case Failed => answer == -1 && Model() == old(Model())
    {
      hide Seek, Dispatch, Leaving, InWindow;
      at := 0;
      if !InWindow(last, e.number) {
        return 0, 0;
      }
      if e.number == last {
        return 0, 0;
      }
      var place := Find(e.number);
      if place.Taken? {
        return 0, 0;
      }
      if !room {
        return -1, 0;
      }
      ghost var c := Model();
      incoming := incoming[..place.at] + [e] + incoming[place.at..];
      assert Model() == Inserted(c, place.at, e);
      DispatchStops(Model(), place.at);
      var before := |incoming|;
      ghost var n := DispatchIncoming();
      at := if e.remaining > 0 then place.at - (before - |incoming|) else 0;
      answer := 1;
    }

    method Receive(command: Command, maximum: nat, room: bool, closing: bool) returns (code: int)
      requires Tidy(Model())
      modifies this
      ensures (Model(), code) == Handle(old(Model()), command, maximum, room, closing)
    {
      hide HandleReliable, HandleFragment, Tidy;
      match command
      case SendReliable(number, data) =>
        if |data| > maximum {
          return -1;
        }
        code := ReceiveReliable(number, data, room, closing);
      case SendFragment(_, _, _, _, _, _, _) =>
        code := ReceiveFragment(command, maximum, room, closing);
    }

    method ReceiveReliable(number: U16, data: seq<Byte>, room: bool, closing: bool) returns (code: int)
      modifies this
      ensures (Model(), code) == HandleReliable(old(Model()), number, data, room, closing)
    {
      hide Queue;
      if closing {
        return 0;
      }
      var answer, at := QueueIncoming(Incoming(number, 0, 0, [], data), room);
      code := if answer < 0 then -1 else 0;
    }

    method ReceiveFragment(f: Command, maximum: nat, room: bool, closing: bool) returns (code: int)
      requires f.SendFragment? && Tidy(Model())
      modifies this
      ensures (Model(), code) == HandleFragment(old(Model()), f, maximum, room, closing)
    {
      hide Seek, Queue, FillAt, InWindow, Awaiting;
      if |f.data| <= 0 || |f.data| > maximum {
        return -1;
      }
      if !InWindow(last, f.start) {
        return 0;
      }
      if !FragmentFits(f, maximum) {
        return -1;
      }
      var place := Find(f.start);
      var at := place.at;
      if place.Taken? {
        var e := incoming[at];
        if e.fragmentCount == 0 || f.total != |e.data| || f.count != e.fragmentCount {
          return -1;
        }
      } else {
        if closing {
          return -1;
        }
        var answer, n := QueueIncoming(Awaiting(f.start, f.count, f.total), room);
        if answer <= 0 {
          return -1;
        }
        at := n;
      }
      CopyIn(at, f.index, f.offset, f.data);
      code := 0;
    }

    // Marks a fragment as received and copies its bytes, the first time it arrives.
    method CopyIn(at: nat, index: nat, offset: nat, data: seq<Byte>)
      requires at < |incoming| && WellMade(incoming[at]) && index < |incoming[at].have| && offset + |data| <= |incoming[at].data|
      modifies this
      ensures Model() == FillAt(old(Model()), at, index, offset, data)
    {
      hide Dispatch, Leaving, Missing;
      var e := incoming[at];
      if !e.have[index] {
        MissingSet(e.have, index);
        e := e.(remaining := e.remaining - 1, have := e.have[index := true]);
        e := e.(data := e.data[..offset] + data + e.data[offset + |data|..]);
        incoming := incoming[at := e];
        if e.remaining <= 0 {
          ghost var n := DispatchIncoming();
        }
      }
    }
  }

  function DataOf(q: seq<Incoming>): seq<Packet> {
    if q == [] then [] else DataOf(q[..|q| - 1]) + [q[|q| - 1].data]
  }

  lemma DataOfNone(q: seq<Incoming>)
    ensures DataOf(q[..0]) == []
  {
  }

  // One round of the walk.
  lemma DispatchNext(c: Channel)
    ensures if c.incoming != [] && c.incoming[0].remaining == 0 && c.incoming[0].number == (c.last + 1) % NUMBERS then
              var e := c.incoming[0];
              var c' := Channel(if e.fragmentCount > 0 then (e.number + e.fragmentCount - 1) % NUMBERS else e.number, c.incoming[1..], c.dispatched + [e.data]);
              Dispatch(c) == Dispatch(c') && Leaving(c) == 1 + Leaving(c')
            else Dispatch(c) == c && Leaving(c) == 0
  {
    if Ready(c) {
      assert DispatchOne(c).last == (c.incoming[0].number + if c.incoming[0].fragmentCount > 0 then c.incoming[0].fragmentCount - 1 else 0) % NUMBERS;
    }
  }

  lemma DataOfMore(q: seq<Incoming>, i: nat)
    requires i < |q|
    ensures DataOf(q[..i + 1]) == DataOf(q[..i]) + [q[i].data]
  {
    assert q[..i + 1][..i] == q[..i];
  }
}
