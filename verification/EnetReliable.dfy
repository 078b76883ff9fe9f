// ENet's reliable delivery on one channel, as functions on values: how a packet is cut into
// numbered commands, and what the receiver does with each command that arrives.

module EnetReliable {
  import opened Words

  const NUMBERS: nat := 0x1_0000
  const WINDOWS: nat := 16
  const WINDOW_SIZE: nat := 0x1000
  const FREE_WINDOWS: nat := 8
  const MAXIMUM_FRAGMENT_COUNT: nat := 0x10_0000

  type Packet = seq<Byte>

  // Sequence numbers are 16 bits wide.
  datatype Command =
    | SendReliable(number: U16, data: seq<Byte>)
    | SendFragment(number: U16, start: U16, data: seq<Byte>, count: nat, index: nat, offset: nat, total: nat)

  // ---- sending ----

  function Ceiling(n: nat, unit: nat): nat
    requires unit > 0
  {
    (n + unit - 1) / unit
  }

  // How many sequence numbers a packet takes.
  function Count(p: Packet, unit: nat): nat
    requires unit > 0
  {
    if |p| > unit then Ceiling(|p|, unit) else 1
  }

  // Where a fragment ends.
  function End(p: Packet, unit: nat, i: nat): nat {
    Min((i + 1) * unit, |p|)
  }

  // Command `i` of a packet whose first command has the unbounded number `first`.
  function CommandOf(p: Packet, unit: nat, first: nat, i: nat): Command
    requires unit > 0 && i < Count(p, unit)
  {
    if |p| <= unit then SendReliable(first % NUMBERS, p)
    else
      FragmentBounds(p, unit, i);
      SendFragment((first + i) % NUMBERS, first % NUMBERS, p[i * unit..End(p, unit, i)], Count(p, unit), i, i * unit, |p|)
  }

  // Every fragment starts inside the packet, and only the last one stops short of a unit.
  lemma FragmentBounds(p: Packet, unit: nat, i: nat)
    requires unit > 0 && |p| > unit && i < Count(p, unit)
    ensures 0 <= i * unit < End(p, unit, i) <= |p| && End(p, unit, i) - i * unit <= unit
    ensures i + 1 < Count(p, unit) ==> End(p, unit, i) == (i + 1) * unit
    ensures i + 1 == Count(p, unit) ==> End(p, unit, i) == |p|
  {
    var n := Count(p, unit);
    var r := (|p| + unit - 1) % unit;
    assert |p| + unit - 1 == unit * n + r;
    assert (i + 1) * unit == i * unit + unit;
    if i + 1 < n {
      assert (i + 2) * unit == (i + 1) * unit + unit;
      MulMonotone(i + 2, n, unit);
    } else {
      assert n * unit == i * unit + unit;
    }
  }

  // ---- receiving ----

  // A packet that waits for its turn, or for its fragments; `have` tells which are there.
  datatype Incoming = Incoming(number: U16, fragmentCount: nat, remaining: nat, have: seq<bool>, data: seq<Byte>)

  datatype Channel = Channel(last: U16, incoming: seq<Incoming>, dispatched: seq<Packet>)

  // The window check, on windows of 0x1000 numbers counted onwards from the current one.
  predicate InWindow(last: U16, number: U16) {
    var window := number / WINDOW_SIZE + if number < last then WINDOWS else 0;
    last / WINDOW_SIZE <= window < last / WINDOW_SIZE + FREE_WINDOWS - 1
  }

  datatype Place = Gap(at: nat) | Taken(at: nat)

  // Looks from the back for where a number belongs among numbers that may have wrapped.
  function Seek(last: U16, q: seq<Incoming>, number: U16): (r: Place)
    ensures r.at <= |q| && (r.Taken? ==> r.at < |q| && q[r.at].number == number)
  {
    if q == [] then Gap(0)
    else
      var e := q[|q| - 1].number;
      if number >= last && e < last then Seek(last, q[..|q| - 1], number)
      else if number < last && e >= last then Gap(|q|)
      else if e < number then Gap(|q|)
      else if e == number then Taken(|q| - 1)
      else Seek(last, q[..|q| - 1], number)
  }

  predicate Ready(c: Channel) {
    c.incoming != [] && c.incoming[0].remaining == 0 && c.incoming[0].number == (c.last + 1) % NUMBERS
  }

  // A packet of fragments counts for all of their numbers.
  function DispatchOne(c: Channel): (r: Channel)
    requires Ready(c)
    ensures r.incoming == c.incoming[1..]
  {
    var e := c.incoming[0];
    Channel((e.number + if e.fragmentCount > 0 then e.fragmentCount - 1 else 0) % NUMBERS, c.incoming[1..], c.dispatched + [e.data])
  }

  // Complete packets leave in order.
  function Dispatch(c: Channel): Channel
    decreases |c.incoming|
  {
    if Ready(c) then Dispatch(DispatchOne(c)) else c
  }

  // How many leave.
  function Leaving(c: Channel): (n: nat)
    ensures n <= |c.incoming|
    decreases |c.incoming|
  {
    if Ready(c) then 1 + Leaving(DispatchOne(c)) else 0
  }

  // `Discarded` is the answer for commands that are old, early or repeated; `Failed` when
  // there is no room for their data.
  datatype Queued = Queued(channel: Channel, at: nat) | Discarded | Failed

  // Where a new packet is put, `at` tells where it stands afterwards if it is incomplete.
  function Queue(c: Channel, e: Incoming, room: bool): (r: Queued)
    ensures r.Queued? && e.remaining > 0 ==> r.at < |r.channel.incoming| && r.channel.incoming[r.at] == e
  {
    if !InWindow(c.last, e.number) || e.number == c.last then Discarded
    else
      var place := Seek(c.last, c.incoming, e.number);
      if place.Taken? then Discarded
      else if !room then Failed
      else
        var c1 := Inserted(c, place.at, e);
        DispatchStops(c1, place.at);
        Queued(Dispatch(c1), if e.remaining > 0 then place.at - Leaving(c1) else 0)
  }

  function Inserted(c: Channel, at: nat, e: Incoming): (r: Channel)
    requires at <= |c.incoming|
    ensures |r.incoming| == |c.incoming| + 1 && r.incoming[at] == e
  {
    c.(incoming := c.incoming[..at] + [e] + c.incoming[at..])
  }

  // An incomplete packet stays, with all behind it.
  lemma {:induction false} DispatchStops(c: Channel, i: nat)
    requires i < |c.incoming|
    ensures Dispatch(c).incoming == c.incoming[Leaving(c)..]
    ensures c.incoming[i].remaining > 0 ==> Leaving(c) <= i
    decreases |c.incoming|
  {
    if Ready(c) {
      var c' := DispatchOne(c);
      if |c.incoming| > 1 {
        DispatchStops(c', if i > 0 then i - 1 else 0);
        assert c.incoming[1..][Leaving(c')..] == c.incoming[Leaving(c)..];
      }
    }
  }

  function Blank(n: nat): (s: seq<Byte>)
    ensures |s| == n
  {
    seq(n, _ => 0)
  }

  function NoneYet(n: nat): (s: seq<bool>)
    ensures |s| == n && forall i | 0 <= i < n :: !s[i]
  {
    seq(n, _ => false)
  }

  function Missing(have: seq<bool>): nat {
    if have == [] then 0 else (if have[0] then 0 else 1) + Missing(have[1..])
  }

  // The count of missing fragments is that of the clear flags.
  predicate WellMade(e: Incoming) {
    |e.have| == e.fragmentCount && e.remaining == Missing(e.have)
  }

  lemma {:induction false} MissingSet(have: seq<bool>, i: nat)
    requires i < |have| && !have[i]
    ensures Missing(have) > 0 && Missing(have[i := true]) == Missing(have) - 1
  {
    if i == 0 {
      assert have[0 := true][1..] == have[1..];
    } else {
      assert have[i := true][1..] == have[1..][i - 1 := true];
      MissingSet(have[1..], i - 1);
    }
  }

  lemma {:induction false} MissingNone(have: seq<bool>)
    ensures Missing(have) == 0 <==> forall i | 0 <= i < |have| :: have[i]
    ensures Missing(have) <= |have|
    ensures (forall i | 0 <= i < |have| :: !have[i]) ==> Missing(have) == |have|
  {
    if have != [] {
      MissingNone(have[1..]);
      assert forall i | 0 < i < |have| :: have[i] == have[1..][i - 1];
      assert forall i | 0 <= i < |have| - 1 :: have[1..][i] == have[i + 1];
    }
  }

  // A packet whose fragments are all still to come.
  function Awaiting(start: U16, count: nat, total: nat): (e: Incoming)
    ensures WellMade(e) && |e.data| == total && e.fragmentCount == count && e.number == start && (count > 0 ==> e.remaining > 0)
  {
    MissingNone(NoneYet(count));
    Incoming(start, count, count, NoneYet(count), Blank(total))
  }

  // A command is refused without an answer while the peer only waits to disconnect.
  function HandleReliable(c: Channel, number: U16, data: seq<Byte>, room: bool, closing: bool): (Channel, int) {
    if closing then (c, 0)
    else
      match Queue(c, Incoming(number, 0, 0, [], data), room)
      case Queued(c', _) => (c', 0)
      case Discarded => (c, 0)
      case Failed => (c, -1)
  }

  // A fragment is copied into the packet it belongs to, unless it is there already.
  function Fill(e: Incoming, index: nat, offset: nat, data: seq<Byte>): (r: Incoming)
    requires WellMade(e) && index < |e.have| && offset + |data| <= |e.data|
    ensures WellMade(r) && r.number == e.number && r.fragmentCount == e.fragmentCount && |r.data| == |e.data|
  {
    if e.have[index] then e
    else
      MissingSet(e.have, index);
      e.(remaining := e.remaining - 1, have := e.have[index := true], data := e.data[..offset] + data + e.data[offset + |data|..])
  }

  function FillAt(c: Channel, at: nat, index: nat, offset: nat, data: seq<Byte>): Channel
    requires at < |c.incoming| && WellMade(c.incoming[at]) && index < |c.incoming[at].have| && offset + |data| <= |c.incoming[at].data|
  {
    var e := Fill(c.incoming[at], index, offset, data);
    var c' := c.(incoming := c.incoming[at := e]);
    if !c.incoming[at].have[index] && e.remaining == 0 then Dispatch(c') else c'
  }

  predicate FragmentFits(f: Command, maximum: nat)
    requires f.SendFragment?
  {
    f.count <= MAXIMUM_FRAGMENT_COUNT && f.index < f.count && f.total <= maximum && f.count <= f.total
    && f.offset < f.total && |f.data| <= f.total - f.offset
  }

  predicate Tidy(c: Channel) {
    forall e <- c.incoming :: WellMade(e)
  }

  function HandleFragment(c: Channel, f: Command, maximum: nat, room: bool, closing: bool): (Channel, int)
    requires f.SendFragment? && Tidy(c)
  {
    if f.data == [] || |f.data| > maximum then (c, -1)
    else if !InWindow(c.last, f.start) then (c, 0)
    else if !FragmentFits(f, maximum) then (c, -1)
    else
      match Seek(c.last, c.incoming, f.start)
      case Taken(at) =>
        var e := c.incoming[at];
        if e.fragmentCount == 0 || f.total != |e.data| || f.count != e.fragmentCount then (c, -1)
        else (FillAt(c, at, f.index, f.offset, f.data), 0)
      case Gap(_) =>
        if closing then (c, -1)
        else
          match Queue(c, Awaiting(f.start, f.count, f.total), room)
          case Queued(c', at) => (FillAt(c', at, f.index, f.offset, f.data), 0)
          case Discarded => (c, -1)
          case Failed => (c, -1)
  }

  function Handle(c: Channel, command: Command, maximum: nat, room: bool, closing: bool): (Channel, int)
    requires Tidy(c)
  {
    match command
    case SendReliable(number, data) =>
      if |data| > maximum then (c, -1) else HandleReliable(c, number, data, room, closing)
    case SendFragment(_, _, _, _, _, _, _) => HandleFragment(c, command, maximum, room, closing)
  }
}
