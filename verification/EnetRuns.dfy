// Runs of a reliable channel: whatever is lost, repeated or reordered, and however often the
// 16-bit numbers wrap, the packets that leave are those that were sent, in order, each once.

module EnetRuns {
  import opened Words
  import opened EnetReliable

  // ---- numbers and windows ----

  // A number not far ahead of `r`, from its low 16 bits.
  lemma Unwrap(r: nat, x: nat)
    requires r < x < r + NUMBERS
    ensures x % NUMBERS != r % NUMBERS
    ensures x == r - r % NUMBERS + x % NUMBERS + if x % NUMBERS < r % NUMBERS then NUMBERS else 0
  {
    var q, m := r / NUMBERS, r % NUMBERS;
    var p, n := x / NUMBERS, x % NUMBERS;
    assert r == NUMBERS * q + m && x == NUMBERS * p + n;
  }

  // How far ahead the window check lets a number be.
  function Ahead(r: nat): nat {
    (FREE_WINDOWS - 1) * WINDOW_SIZE - r % WINDOW_SIZE
  }

  // The window check accepts a number if and only if its cyclic distance is small enough.
  lemma WindowExact(r: nat, a: nat)
    ensures InWindow(r % NUMBERS, a % NUMBERS) <==> (a as int - r) % NUMBERS < Ahead(r)
  {
    var last, number := r % NUMBERS, a % NUMBERS;
    var d := if number >= last then number - last else number + NUMBERS - last;
    Distance(r, a, d);
    WindowOf(last, number, d);
    SmallModulus(r);
  }

  lemma Distance(r: nat, a: nat, d: nat)
    requires d < NUMBERS && d == (if a % NUMBERS >= r % NUMBERS then a % NUMBERS - r % NUMBERS else a % NUMBERS + NUMBERS - r % NUMBERS)
    ensures (a as int - r) % NUMBERS == d
  {
    var q, m := r / NUMBERS, r % NUMBERS;
    var p, n := a / NUMBERS, a % NUMBERS;
    var k := p - q - if n < m then 1 else 0;
    assert a - r == NUMBERS * k + d;
  }

  lemma SmallModulus(r: nat)
    ensures r % NUMBERS % WINDOW_SIZE == r % WINDOW_SIZE
  {
    var q, m: nat := r / NUMBERS, r % NUMBERS;
    var k, n: nat := m / WINDOW_SIZE, m % WINDOW_SIZE;
    assert r == NUMBERS * q + m && m == WINDOW_SIZE * k + n;
    DivMod(r, 0x1000, 16 * q + k, n);
  }

  lemma WindowOf(last: U16, number: U16, d: nat)
    requires d == if number >= last then number - last else number + NUMBERS - last
    ensures InWindow(last, number) <==> d < (FREE_WINDOWS - 1) * WINDOW_SIZE - last % WINDOW_SIZE
  {
    var w := number / WINDOW_SIZE + if number < last then WINDOWS else 0;
    var l := last / WINDOW_SIZE;
    assert w * WINDOW_SIZE <= last + d < w * WINDOW_SIZE + WINDOW_SIZE;
  }

  // ---- the stream ----

  // The number before the first one of packet `k`.
  function First(packets: seq<Packet>, unit: nat, k: nat): nat
    requires unit > 0 && k <= |packets|
  {
    if k == 0 then 0 else First(packets, unit, k - 1) + Count(packets[k - 1], unit)
  }

  lemma CountPositive(p: Packet, unit: nat)
    requires unit > 0
    ensures Count(p, unit) > 0
  {
    if |p| > unit {
      DivBracket(|p| + unit - 1, unit, 1);
    }
  }

  lemma {:induction false} FirstMonotone(packets: seq<Packet>, unit: nat, k: nat, l: nat)
    requires unit > 0 && k <= l <= |packets|
    ensures First(packets, unit, k) <= First(packets, unit, l)
    ensures k < l ==> First(packets, unit, k) < First(packets, unit, l)
    decreases l
  {
    if k < l {
      CountPositive(packets[l - 1], unit);
      FirstMonotone(packets, unit, k, l - 1);
    }
  }

  lemma {:induction false} FirstGrows(packets: seq<Packet>, more: seq<Packet>, unit: nat, k: nat)
    requires unit > 0 && k <= |packets|
    ensures First(packets + more, unit, k) == First(packets, unit, k)
    decreases k
  {
    if k > 0 {
      FirstGrows(packets, more, unit, k - 1);
    }
  }

  // ---- what a channel holds ----

  // The number of the first command of packet `k`.
  function NumberOf(packets: seq<Packet>, unit: nat, k: nat): nat
    requires unit > 0 && k < |packets|
  {
    First(packets, unit, k) + 1
  }

  function SliceOf(p: Packet, unit: nat, i: nat): seq<Byte>
    requires unit > 0 && |p| > unit && i < Count(p, unit)
  {
    FragmentBounds(p, unit, i);
    p[i * unit..End(p, unit, i)]
  }

  // `data` agrees with the packet where fragment `i` lies.
  ghost predicate Agrees(data: seq<Byte>, p: Packet, unit: nat, i: nat)
    requires unit > 0 && |p| > unit && i < Count(p, unit) && |data| == |p|
  {
    FragmentBounds(p, unit, i);
    data[i * unit..End(p, unit, i)] == SliceOf(p, unit, i)
  }

  // `e` is packet `p`, as far as it has arrived.
  ghost predicate PartOf(e: Incoming, p: Packet, unit: nat)
    requires unit > 0
  {
    && WellMade(e) && |e.data| == |p|
    && if |p| <= unit then e.fragmentCount == 0 && e.data == p
       else e.fragmentCount == Count(p, unit) && forall i | 0 <= i < e.fragmentCount && e.have[i] :: Agrees(e.data, p, unit, i)
  }

  ghost predicate Waits(e: Incoming, packets: seq<Packet>, unit: nat, k: nat)
    requires unit > 0
  {
    k < |packets| && e.number == NumberOf(packets, unit, k) % NUMBERS && PartOf(e, packets[k], unit)
  }

  // The packets numbered `ks` wait, ascending, all ahead of those that have left.
  ghost predicate Holding(c: Channel, packets: seq<Packet>, unit: nat, ks: seq<nat>) {
    && unit > 0 && |c.dispatched| <= |packets| && c.dispatched == packets[..|c.dispatched|]
    && c.last == First(packets, unit, |c.dispatched|) % NUMBERS
    && |ks| == |c.incoming| && (forall i, j | 0 <= i < j < |ks| :: ks[i] < ks[j])
    && (forall j | 0 <= j < |ks| :: ks[j] >= |c.dispatched| && Waits(c.incoming[j], packets, unit, ks[j]))
    && (forall j | 0 <= j < |ks| :: Near(packets, unit, |c.dispatched|, ks[j]))
  }

  // Within the widest window ahead.
  ghost predicate Near(packets: seq<Packet>, unit: nat, d: nat, k: nat)
    requires unit > 0 && d <= |packets|
  {
    k < |packets| && First(packets, unit, k) < First(packets, unit, d) + (FREE_WINDOWS - 1) * WINDOW_SIZE
  }

  // ---- fragments make up the packet ----

  lemma {:induction false} Assembled(data: seq<Byte>, p: Packet, unit: nat, n: nat)
    requires unit > 0 && |p| > unit && n <= Count(p, unit) && |data| == |p|
    requires forall i | 0 <= i < n :: Agrees(data, p, unit, i)
    ensures var m := if n == Count(p, unit) then |p| else n * unit; m <= |p| && data[..m] == p[..m]
    decreases n
  {
    if n > 0 {
      Assembled(data, p, unit, n - 1);
      FragmentBounds(p, unit, n - 1);
      var a, b := (n - 1) * unit, End(p, unit, n - 1);
      assert Agrees(data, p, unit, n - 1);
      assert data[..b] == data[..a] + data[a..b] && p[..b] == p[..a] + p[a..b];
    } else {
      CountPositive(p, unit);
    }
  }

  lemma CompleteIsWhole(e: Incoming, p: Packet, unit: nat)
    requires unit > 0 && PartOf(e, p, unit) && e.remaining == 0
    ensures e.data == p
  {
    if |p| > unit {
      MissingNone(e.have);
      Assembled(e.data, p, unit, e.fragmentCount);
      assert e.data[..|p|] == e.data && p[..|p|] == p;
    }
  }

  lemma FillPart(e: Incoming, p: Packet, unit: nat, i: nat)
    requires unit > 0 && PartOf(e, p, unit) && |p| > unit && i < Count(p, unit)
    ensures i * unit + |SliceOf(p, unit, i)| <= |e.data| && PartOf(Fill(e, i, i * unit, SliceOf(p, unit, i)), p, unit)
  {
    FragmentBounds(p, unit, i);
    var a, b := i * unit, End(p, unit, i);
    var s := SliceOf(p, unit, i);
    if !e.have[i] {
      var f := Fill(e, i, a, s);
      forall j | 0 <= j < f.fragmentCount && f.have[j]
        ensures Agrees(f.data, p, unit, j)
      {
        FragmentBounds(p, unit, j);
        hide Fill, SliceOf, Count, End, WellMade;
        if j != i {
          assert Agrees(e.data, p, unit, j);
          if j < i {
            MulMonotone(j + 1, i, unit);
          } else {
            MulMonotone(i + 1, j, unit);
          }
          Spliced(e.data, a, b, s, j * unit, End(p, unit, j));
        } else {
          Spliced(e.data, a, b, s, a, a);
        }
      }
    }
  }

  // Copying over one stretch leaves the others alone.
  lemma Spliced(data: seq<Byte>, a: nat, b: nat, piece: seq<Byte>, x: nat, y: nat)
    requires a <= b <= |data| && |piece| == b - a && x <= y <= |data| && (y <= a || b <= x)
    ensures var data' := data[..a] + piece + data[b..];
      |data'| == |data| && data'[x..y] == data[x..y] && data'[a..b] == piece
  {
  }

  // ---- looking for a place among numbers that have wrapped ----

  // Two numbers ahead of `r`, compared as the C code does: by the side of the current
  // number they fall on, then by size.
  lemma Compared(r: nat, x: nat, y: nat)
    requires r < x < r + NUMBERS && r < y < r + NUMBERS
    ensures var last, n, e := r % NUMBERS, x % NUMBERS, y % NUMBERS;
      && (n >= last && e < last ==> x < y) && (n < last && e >= last ==> y < x)
      && ((n >= last <==> e >= last) ==> (e < n <==> y < x) && (e == n <==> x == y))
  {
    Unwrap(r, x);
    Unwrap(r, y);
  }

  lemma {:induction false} SeekMeans(r: nat, q: seq<Incoming>, at: seq<nat>, x: nat)
    requires r < x < r + NUMBERS && |at| == |q|
    requires forall i, j | 0 <= i < j < |at| :: at[i] < at[j]
    requires forall j | 0 <= j < |at| :: r < at[j] < r + NUMBERS && q[j].number == at[j] % NUMBERS
    ensures var place := Seek(r % NUMBERS, q, x % NUMBERS);
      && (place.Taken? ==> at[place.at] == x)
      && (place.Gap? ==> (forall j | 0 <= j < place.at :: at[j] < x) && (forall j | place.at <= j < |at| :: at[j] > x))
    decreases |q|
  {
    if q != [] {
      var n := |q| - 1;
      Compared(r, x, at[n]);
      SeekMeans(r, q[..n], at[..n], x);
    }
  }

  // ---- the steps keep what a channel holds ----

  function Numbers(packets: seq<Packet>, unit: nat, ks: seq<nat>): (r: seq<nat>)
    requires unit > 0 && forall j | 0 <= j < |ks| :: ks[j] < |packets|
    ensures |r| == |ks| && forall j | 0 <= j < |ks| :: r[j] == NumberOf(packets, unit, ks[j])
  {
    if ks == [] then [] else [NumberOf(packets, unit, ks[0])] + Numbers(packets, unit, ks[1..])
  }

  lemma NumbersAscend(packets: seq<Packet>, unit: nat, ks: seq<nat>, d: nat, r: nat) returns (at: seq<nat>)
    requires unit > 0 && d <= |packets| && (forall i, j | 0 <= i < j < |ks| :: ks[i] < ks[j]) && r == First(packets, unit, d)
    requires forall j | 0 <= j < |ks| :: d <= ks[j] < |packets| && Near(packets, unit, d, ks[j])
    ensures |at| == |ks| && (forall i, j | 0 <= i < j < |at| :: at[i] < at[j])
    ensures forall j | 0 <= j < |at| :: r < at[j] < r + NUMBERS && at[j] == NumberOf(packets, unit, ks[j])
  {
    at := Numbers(packets, unit, ks);
    forall i, j | 0 <= i < j < |at|
      ensures at[i] < at[j]
    {
      FirstMonotone(packets, unit, ks[i], ks[j]);
    }
    forall j | 0 <= j < |at|
      ensures r < at[j] < r + NUMBERS
    {
      FirstMonotone(packets, unit, d, ks[j]);
    }
  }

  // A packet's number says which packet it is.
  lemma WhichPacket(packets: seq<Packet>, unit: nat, k: nat, l: nat)
    requires unit > 0 && k < |packets| && l < |packets|
    ensures NumberOf(packets, unit, k) < NumberOf(packets, unit, l) <==> k < l
    ensures NumberOf(packets, unit, k) == NumberOf(packets, unit, l) <==> k == l
  {
    if k <= l {
      FirstMonotone(packets, unit, k, l);
    } else {
      FirstMonotone(packets, unit, l, k);
    }
  }

  lemma InsertHolds(c: Channel, packets: seq<Packet>, unit: nat, ks: seq<nat>, at: nat, e: Incoming, k: nat)
    requires Holding(c, packets, unit, ks) && at <= |ks| && |c.dispatched| <= k && Waits(e, packets, unit, k)
    requires Near(packets, unit, |c.dispatched|, k)
    requires (forall j | 0 <= j < at :: ks[j] < k) && (forall j | at <= j < |ks| :: ks[j] > k)
    ensures Holding(Inserted(c, at, e), packets, unit, ks[..at] + [k] + ks[at..])
  {
    hide Waits, Near;
    var ks', c' := ks[..at] + [k] + ks[at..], Inserted(c, at, e);
    forall j | 0 <= j < |ks'|
      ensures ks'[j] >= |c.dispatched| && Waits(c'.incoming[j], packets, unit, ks'[j]) && Near(packets, unit, |c.dispatched|, ks'[j])
    {
      if j > at {
        assert ks'[j] == ks[j - 1] && c'.incoming[j] == c.incoming[j - 1];
      }
    }
  }

  lemma ReplaceHolds(c: Channel, packets: seq<Packet>, unit: nat, ks: seq<nat>, at: nat, e: Incoming)
    requires Holding(c, packets, unit, ks) && at < |ks| && Waits(e, packets, unit, ks[at])
    ensures Holding(c.(incoming := c.incoming[at := e]), packets, unit, ks)
  {
  }

  // The packet at the front, complete and next in number, is the next of the stream.
  lemma DispatchOneHolds(c: Channel, packets: seq<Packet>, unit: nat, ks: seq<nat>)
    requires Holding(c, packets, unit, ks) && Ready(c)
    ensures Holding(DispatchOne(c), packets, unit, ks[1..]) && |DispatchOne(c).dispatched| == |c.dispatched| + 1
  {
    var d, e := |c.dispatched|, c.incoming[0];
    var r := First(packets, unit, d);
    FrontIsNext(c, packets, unit, ks);
    CompleteIsWhole(e, packets[d], unit);
    var c' := DispatchOne(c);
    assert packets[..d + 1] == packets[..d] + [packets[d]];
    LastAfter(e, packets[d], unit, r);
    forall j | 0 <= j < |ks[1..]|
      ensures ks[1..][j] >= d + 1 && Waits(c'.incoming[j], packets, unit, ks[1..][j]) && Near(packets, unit, d + 1, ks[1..][j])
    {
      assert ks[0] < ks[j + 1];
      FirstMonotone(packets, unit, d, d + 1);
    }
  }

  lemma FrontIsNext(c: Channel, packets: seq<Packet>, unit: nat, ks: seq<nat>)
    requires Holding(c, packets, unit, ks) && Ready(c)
    ensures ks[0] == |c.dispatched|
  {
    var d := |c.dispatched|;
    var r, x := First(packets, unit, d), NumberOf(packets, unit, ks[0]);
    FirstMonotone(packets, unit, d, ks[0]);
    assert Waits(c.incoming[0], packets, unit, ks[0]) && Near(packets, unit, d, ks[0]);
    Unwrap(r, x);
    Unwrap(r, r + 1);
    NextNumber(r);
  }

  lemma NextNumber(r: nat)
    ensures (r % NUMBERS + 1) % NUMBERS == (r + 1) % NUMBERS
  {
  }

  lemma LastAfter(e: Incoming, p: Packet, unit: nat, r: nat)
    requires unit > 0 && PartOf(e, p, unit) && e.number == (r + 1) % NUMBERS
    ensures (e.number + if e.fragmentCount > 0 then e.fragmentCount - 1 else 0) % NUMBERS == (r + Count(p, unit)) % NUMBERS
  {
    CountPositive(p, unit);
    var n := Count(p, unit) - 1;
    assert (e.number + n) % NUMBERS == (r + 1 + n) % NUMBERS;
  }

  lemma {:induction false} DispatchHolds(c: Channel, packets: seq<Packet>, unit: nat, ks: seq<nat>) returns (ks': seq<nat>)
    requires Holding(c, packets, unit, ks)
    ensures Holding(Dispatch(c), packets, unit, ks') && !Ready(Dispatch(c)) && ks' == ks[Leaving(c)..]
    ensures |Dispatch(c).dispatched| >= |c.dispatched|
    decreases |c.incoming|
  {
    hide Holding, Ready;
    if Ready(c) {
      HoldingFacts(c, packets, unit, ks);
      DispatchOneHolds(c, packets, unit, ks);
      ks' := DispatchHolds(DispatchOne(c), packets, unit, ks[1..]);
    } else {
      ks' := ks;
    }
  }

  lemma HoldingFacts(c: Channel, packets: seq<Packet>, unit: nat, ks: seq<nat>)
    requires Holding(c, packets, unit, ks)
    ensures |ks| == |c.incoming| && (Ready(c) ==> ks != [])
    ensures Tidy(c) && forall i, j | 0 <= i < j < |ks| :: ks[i] < ks[j]
  {
    forall e <- c.incoming
      ensures WellMade(e)
    {
      var j :| 0 <= j < |c.incoming| && c.incoming[j] == e;
      assert Waits(c.incoming[j], packets, unit, ks[j]);
    }
  }

  // ---- commands that arrive ----

  // What may still arrive: no number whose low 16 bits look like those of another one that is
  // near. `r` is the last number received, `a` that of the packet's first command.
  predicate Recent(r: nat, a: nat) {
    0 < (a as int - r) % NUMBERS < Ahead(r) ==> 0 < a - r < Ahead(r)
  }

  // Among recent numbers the window check accepts those from `r` on that are near, and those
  // whose low 16 bits are those of `r`.
  lemma RecentWindow(r: nat, a: nat)
    requires Recent(r, a)
    ensures InWindow(r % NUMBERS, a % NUMBERS) && a % NUMBERS != r % NUMBERS <==> 0 < a - r < Ahead(r)
  {
    WindowExact(r, a);
    NoDistance(r, a);
    if 0 < a - r < Ahead(r) {
      Unwrap(r, a);
    }
  }

  lemma NoDistance(r: nat, a: nat)
    ensures (a as int - r) % NUMBERS == 0 <==> a % NUMBERS == r % NUMBERS
  {
    Distance(r, a, if a % NUMBERS >= r % NUMBERS then a % NUMBERS - r % NUMBERS else a % NUMBERS + NUMBERS - r % NUMBERS);
  }

  // A number that was received before, however long ago, is recent if and only if the window
  // check refuses it or takes it for the last one.
  lemma OldRecent(r: nat, a: nat)
    requires a < r
    ensures Recent(r, a) <==> !InWindow(r % NUMBERS, a % NUMBERS) || a % NUMBERS == r % NUMBERS
  {
    WindowExact(r, a);
    NoDistance(r, a);
  }

  // Where a packet ahead belongs among those that wait.
  lemma PlaceFor(c: Channel, packets: seq<Packet>, unit: nat, ks: seq<nat>, number: U16, k: nat)
    requires Holding(c, packets, unit, ks) && k < |packets| && number == NumberOf(packets, unit, k) % NUMBERS
    requires 0 < NumberOf(packets, unit, k) as int - First(packets, unit, |c.dispatched|) < NUMBERS
    ensures var place := Seek(c.last, c.incoming, number);
      && place.at <= |ks| == |c.incoming|
      && (place.Taken? ==> place.at < |ks| && ks[place.at] == k)
      && (place.Gap? ==> (forall j | 0 <= j < place.at :: ks[j] < k) && (forall j | place.at <= j < |ks| :: ks[j] > k))
  {
    hide Holding, Near, Seek, First;
    var d := |c.dispatched|;
    HoldingFacts(c, packets, unit, ks);
    LastNumber(c, packets, unit, ks);
    var r, a := First(packets, unit, d), NumberOf(packets, unit, k);
    AtNumbers(c, packets, unit, ks);
    var at := NumbersAscend(packets, unit, ks, d, r);
    SeekMeans(r, c.incoming, at, a);
    forall j | 0 <= j < |ks|
      ensures at[j] < a <==> ks[j] < k
      ensures at[j] > a <==> ks[j] > k
      ensures at[j] == a <==> ks[j] == k
    {
      WhichPacket(packets, unit, ks[j], k);
      WhichPacket(packets, unit, k, ks[j]);
    }
  }

  // A new packet is put in its place among those that wait.
  lemma QueueHolds(c: Channel, packets: seq<Packet>, unit: nat, ks: seq<nat>, e: Incoming, k: nat, room: bool) returns (ks': seq<nat>, n: nat)
    requires Holding(c, packets, unit, ks) && k < |packets| && Waits(e, packets, unit, k)
    requires Recent(First(packets, unit, |c.dispatched|), NumberOf(packets, unit, k))
    ensures var q := Queue(c, e, room);
      q.Queued? ==>
        && Holding(q.channel, packets, unit, ks') && !Ready(q.channel) && |q.channel.dispatched| >= |c.dispatched|
        && (e.remaining > 0 ==> n == q.at < |ks'| && ks'[n] == k)
  {
    hide Waits, Near, InWindow, Ready, Dispatch, Seek, First, Recent, Holding;
    ks', n := ks, 0;
    LastNumber(c, packets, unit, ks);
    var d := |c.dispatched|;
    var r, a := First(packets, unit, d), NumberOf(packets, unit, k);
    HoldingFacts(c, packets, unit, ks);
    WaitsNumber(e, packets, unit, k);
    RecentWindow(r, a);
    AheadFits(r);
    if Queue(c, e, room).Queued? {
      NotBefore(packets, unit, d, k);
      PlaceFor(c, packets, unit, ks, e.number, k);
      var place := Seek(c.last, c.incoming, e.number);
      InsertHolds(c, packets, unit, ks, place.at, e, k);
      var c1, ks1 := Inserted(c, place.at, e), ks[..place.at] + [k] + ks[place.at..];
      DispatchStops(c1, place.at);
      ks' := DispatchHolds(c1, packets, unit, ks1);
      if e.remaining > 0 {
        n := place.at - Leaving(c1);
        assert ks'[n] == ks1[place.at];
      }
    }
  }

  lemma LastNumber(c: Channel, packets: seq<Packet>, unit: nat, ks: seq<nat>)
    requires Holding(c, packets, unit, ks)
    ensures c.last == First(packets, unit, |c.dispatched|) % NUMBERS && |c.dispatched| <= |packets| && unit > 0
  {
  }

  lemma AheadFits(r: nat)
    ensures Ahead(r) <= (FREE_WINDOWS - 1) * WINDOW_SIZE
  {
  }

  lemma WaitsNumber(e: Incoming, packets: seq<Packet>, unit: nat, k: nat)
    requires unit > 0 && Waits(e, packets, unit, k)
    ensures k < |packets| && e.number == NumberOf(packets, unit, k) % NUMBERS
  {
  }

  // A number ahead of the last one received is that of a packet not yet dispatched.
  lemma NotBefore(packets: seq<Packet>, unit: nat, d: nat, k: nat)
    requires unit > 0 && d <= |packets| && k < |packets|
    requires First(packets, unit, d) < NumberOf(packets, unit, k) < First(packets, unit, d) + (FREE_WINDOWS - 1) * WINDOW_SIZE
    ensures d <= k && Near(packets, unit, d, k)
  {
    if k < d {
      FirstMonotone(packets, unit, k, d);
    }
  }

  lemma AtNumbers(c: Channel, packets: seq<Packet>, unit: nat, ks: seq<nat>)
    requires Holding(c, packets, unit, ks)
    ensures forall j | 0 <= j < |ks| :: |c.dispatched| <= ks[j] < |packets| && Near(packets, unit, |c.dispatched|, ks[j])
    ensures forall j | 0 <= j < |ks| :: c.incoming[j].number == NumberOf(packets, unit, ks[j]) % NUMBERS
  {
    forall j | 0 <= j < |ks|
      ensures ks[j] < |packets| && c.incoming[j].number == NumberOf(packets, unit, ks[j]) % NUMBERS
    {
      assert Waits(c.incoming[j], packets, unit, ks[j]);
    }
  }

  // A fragment is filled into the packet that waits for it.
  lemma FillHolds(c: Channel, packets: seq<Packet>, unit: nat, ks: seq<nat>, at: nat, i: nat) returns (ks': seq<nat>)
    requires Holding(c, packets, unit, ks) && !Ready(c) && at < |ks| && ks[at] < |packets|
    requires var p := packets[ks[at]]; |p| > unit && i < Count(p, unit)
    ensures var p := packets[ks[at]];
      && at < |c.incoming| && WellMade(c.incoming[at]) && i < |c.incoming[at].have|
      && i * unit + |SliceOf(p, unit, i)| <= |c.incoming[at].data|
      && c.incoming[at].fragmentCount == Count(p, unit) && |c.incoming[at].data| == |p|
      && var c' := FillAt(c, at, i, i * unit, SliceOf(p, unit, i));
         Holding(c', packets, unit, ks') && !Ready(c') && |c'.dispatched| >= |c.dispatched|
  {
    var p, e := packets[ks[at]], c.incoming[at];
    WaitsPart(c, packets, unit, ks, at);
    FillPart(e, p, unit, i);
    var e' := Fill(e, i, i * unit, SliceOf(p, unit, i));
    var c' := c.(incoming := c.incoming[at := e']);
    FilledWaits(c, packets, unit, ks, at, e');
    ReplaceHolds(c, packets, unit, ks, at, e');
    hide Holding, Fill, SliceOf, PartOf;
    if !e.have[i] && e'.remaining == 0 {
      ks' := DispatchHolds(c', packets, unit, ks);
    } else {
      ks' := ks;
      FilledNotReady(c, at, e', e.have[i]);
    }
  }

  lemma WaitsPart(c: Channel, packets: seq<Packet>, unit: nat, ks: seq<nat>, at: nat)
    requires Holding(c, packets, unit, ks) && at < |ks| && ks[at] < |packets|
    ensures at < |c.incoming| && PartOf(c.incoming[at], packets[ks[at]], unit)
  {
    assert Waits(c.incoming[at], packets, unit, ks[at]);
  }

  lemma FilledWaits(c: Channel, packets: seq<Packet>, unit: nat, ks: seq<nat>, at: nat, e': Incoming)
    requires Holding(c, packets, unit, ks) && at < |ks| && ks[at] < |packets|
    requires PartOf(e', packets[ks[at]], unit) && at < |c.incoming| && e'.number == c.incoming[at].number
    ensures Waits(e', packets, unit, ks[at])
  {
    assert Waits(c.incoming[at], packets, unit, ks[at]);
  }

  lemma FilledNotReady(c: Channel, at: nat, e': Incoming, had: bool)
    requires at < |c.incoming| && !Ready(c) && (if had then e' == c.incoming[at] else e'.remaining > 0)
    ensures !Ready(c.(incoming := c.incoming[at := e']))
  {
  }

  // No packet that waits has the number of the last one received.
  lemma LastIsNoPlace(c: Channel, packets: seq<Packet>, unit: nat, ks: seq<nat>)
    requires Holding(c, packets, unit, ks)
    ensures Seek(c.last, c.incoming, c.last).Gap?
  {
    var d := |c.dispatched|;
    var r := First(packets, unit, d);
    AtNumbers(c, packets, unit, ks);
    HoldingFacts(c, packets, unit, ks);
    var at := NumbersAscend(packets, unit, ks, d, r);
    var place := Seek(c.last, c.incoming, c.last);
    if place.Taken? {
      Unwrap(r, at[place.at]);
    }
  }

  lemma QueueLast(c: Channel, e: Incoming, room: bool)
    requires e.number == c.last
    ensures Queue(c, e, room) == Discarded
  {
  }

  lemma FragmentHolds(c: Channel, packets: seq<Packet>, unit: nat, ks: seq<nat>, k: nat, i: nat, maximum: nat, room: bool, closing: bool)
      returns (ks': seq<nat>)
    requires Holding(c, packets, unit, ks) && !Ready(c) && k < |packets| && |packets[k]| > unit && i < Count(packets[k], unit)
    requires Recent(First(packets, unit, |c.dispatched|), NumberOf(packets, unit, k)) && Tidy(c)
    ensures var c' := HandleFragment(c, CommandOf(packets[k], unit, NumberOf(packets, unit, k), i), maximum, room, closing).0;
      Holding(c', packets, unit, ks') && !Ready(c') && |c'.dispatched| >= |c.dispatched|
  {
    hide Holding, Ready, FillAt, First, Recent, InWindow, Seek, Queue, WellMade, Awaiting;
    ks' := ks;
    var d, p := |c.dispatched|, packets[k];
    LastNumber(c, packets, unit, ks);
    var r, a := First(packets, unit, d), NumberOf(packets, unit, k);
    var f := CommandOf(p, unit, a, i);
    assert f.data == SliceOf(p, unit, i);
    FragmentBounds(p, unit, i);
    RecentWindow(r, a);
    LastIsNoPlace(c, packets, unit, ks);
    AheadFits(r);
    QueueLast(c, Awaiting(c.last, f.count, f.total), room);
    if InWindow(c.last, f.start) && f.start != c.last && |f.data| <= maximum && FragmentFits(f, maximum) {
      PlaceFor(c, packets, unit, ks, f.start, k);
      var place := Seek(c.last, c.incoming, f.start);
      if place.Taken? {
        ks' := FillHolds(c, packets, unit, ks, place.at, i);
      } else if !closing {
        var e := Awaiting(f.start, f.count, f.total);
        AwaitingWaits(packets, unit, k);
        var ks1, n := QueueHolds(c, packets, unit, ks, e, k, room);
        var q := Queue(c, e, room);
        if q.Queued? {
          ks' := FillHolds(q.channel, packets, unit, ks1, n, i);
        }
      }
    }
  }

  lemma AwaitingWaits(packets: seq<Packet>, unit: nat, k: nat)
    requires unit > 0 && k < |packets| && |packets[k]| > unit
    ensures var p := packets[k];
      var e := Awaiting(NumberOf(packets, unit, k) % NUMBERS, Count(p, unit), |p|);
      Waits(e, packets, unit, k) && e.remaining > 0
  {
    CountPositive(packets[k], unit);
  }

  // Whatever arrives, the channel goes on holding part of the stream, and what can leave
  // has left.
  lemma ArrivalHolds(c: Channel, packets: seq<Packet>, unit: nat, ks: seq<nat>, k: nat, i: nat, maximum: nat, room: bool, closing: bool)
      returns (ks': seq<nat>)
    requires Holding(c, packets, unit, ks) && !Ready(c) && k < |packets| && i < Count(packets[k], unit) && Tidy(c)
    requires Recent(First(packets, unit, |c.dispatched|), NumberOf(packets, unit, k))
    ensures var c' := Handle(c, CommandOf(packets[k], unit, NumberOf(packets, unit, k), i), maximum, room, closing).0;
      Holding(c', packets, unit, ks') && !Ready(c') && |c'.dispatched| >= |c.dispatched|
  {
    hide Holding, Ready, First, Recent, Queue, HandleFragment;
    ks' := ks;
    LastNumber(c, packets, unit, ks);
    var p, a := packets[k], NumberOf(packets, unit, k);
    if |p| > unit {
      ks' := FragmentHolds(c, packets, unit, ks, k, i, maximum, room, closing);
    } else if |p| <= maximum && !closing {
      var e := Incoming(a % NUMBERS, 0, 0, [], p);
      WholeWaits(packets, unit, k);
      var ks1, n := QueueHolds(c, packets, unit, ks, e, k, room);
      if Queue(c, e, room).Queued? {
        ks' := ks1;
      }
    }
  }

  lemma WholeWaits(packets: seq<Packet>, unit: nat, k: nat)
    requires unit > 0 && k < |packets| && |packets[k]| <= unit
    ensures Waits(Incoming(NumberOf(packets, unit, k) % NUMBERS, 0, 0, [], packets[k]), packets, unit, k)
  {
  }

  // ---- whole runs ----

  // The packets sent so far, and the receiving end.
  datatype Link = Link(packets: seq<Packet>, channel: Channel)

  // A packet is sent, or command `i` of packet `k` arrives, perhaps again. A command that
  // never arrives is lost.
  datatype Event = Sent(packet: Packet) | Arrived(k: nat, i: nat, maximum: nat, room: bool, closing: bool)

  ghost predicate Step(s: Link, event: Event, s': Link, unit: nat)
    requires unit > 0
  {
    match event
    case Sent(p) => s' == s.(packets := s.packets + [p])
    case Arrived(k, i, maximum, room, closing) =>
      && Tidy(s.channel) && k < |s.packets| && i < Count(s.packets[k], unit) && |s.channel.dispatched| <= |s.packets|
      && Recent(First(s.packets, unit, |s.channel.dispatched|), NumberOf(s.packets, unit, k))
      && s' == s.(channel := Handle(s.channel, CommandOf(s.packets[k], unit, NumberOf(s.packets, unit, k), i), maximum, room, closing).0)
  }

  // `trace` goes through the events, one state more than there are events.
  ghost predicate Run(trace: seq<Link>, events: seq<Event>, unit: nat) {
    && unit > 0 && |trace| == |events| + 1 && trace[0] == Link([], Channel(0, [], []))
    && forall t | 0 <= t < |events| :: Step(trace[t], events[t], trace[t + 1], unit)
  }

  lemma GrowHolds(c: Channel, packets: seq<Packet>, p: Packet, unit: nat, ks: seq<nat>)
    requires Holding(c, packets, unit, ks)
    ensures Holding(c, packets + [p], unit, ks)
  {
    var d, packets' := |c.dispatched|, packets + [p];
    FirstGrows(packets, [p], unit, d);
    assert packets'[..d] == packets[..d];
    forall j | 0 <= j < |ks|
      ensures Waits(c.incoming[j], packets', unit, ks[j]) && Near(packets', unit, d, ks[j])
    {
      assert Waits(c.incoming[j], packets, unit, ks[j]) && Near(packets, unit, d, ks[j]);
      FirstGrows(packets, [p], unit, ks[j]);
    }
  }

  lemma {:induction false} RunHolds(trace: seq<Link>, events: seq<Event>, unit: nat) returns (ks: seq<nat>)
    requires Run(trace, events, unit)
    ensures var s := trace[|events|]; Holding(s.channel, s.packets, unit, ks) && !Ready(s.channel)
    decreases |events|
  {
    if events == [] {
      ks := [];
    } else {
      var n := |events| - 1;
      var before := RunHolds(trace[..|events|], events[..n], unit);
      var s, s', event := trace[n], trace[n + 1], events[n];
      assert Step(s, event, s', unit);
      hide Holding, Ready;
      match event
      case Sent(p) =>
        GrowHolds(s.channel, s.packets, p, unit, before);
        ks := before;
      case Arrived(k, i, maximum, room, closing) =>
        ks := ArrivalHolds(s.channel, s.packets, unit, before, k, i, maximum, room, closing);
    }
  }

  // What has left is the beginning of what was sent, whole and in order; the last number
  // received is the sum of what those packets take; and nothing that could leave is kept.
  lemma DispatchedInOrder(trace: seq<Link>, events: seq<Event>, unit: nat)
    requires Run(trace, events, unit)
    ensures var s := trace[|events|];
      && s.channel.dispatched <= s.packets
      && s.channel.last == First(s.packets, unit, |s.channel.dispatched|) % NUMBERS
      && !Ready(s.channel) && Tidy(s.channel)
  {
    var ks := RunHolds(trace, events, unit);
    var s := trace[|events|];
    HoldingFacts(s.channel, s.packets, unit, ks);
  }

  // What waits is strictly in order by cyclic distance from the last number received.
  lemma WaitingInOrder(trace: seq<Link>, events: seq<Event>, unit: nat)
    requires Run(trace, events, unit)
    ensures var c := trace[|events|].channel;
      forall i, j | 0 <= i < j < |c.incoming| ::
        0 < (c.incoming[i].number as int - c.last) % NUMBERS < (c.incoming[j].number as int - c.last) % NUMBERS < (FREE_WINDOWS - 1) * WINDOW_SIZE + 1
  {
    var ks := RunHolds(trace, events, unit);
    var s := trace[|events|];
    var c := s.channel;
    var r := First(s.packets, unit, |c.dispatched|);
    AtNumbers(c, s.packets, unit, ks);
    HoldingFacts(c, s.packets, unit, ks);
    LastNumber(c, s.packets, unit, ks);
    var at := NumbersAscend(s.packets, unit, ks, |c.dispatched|, r);
    forall i | 0 <= i < |c.incoming|
      ensures (c.incoming[i].number as int - c.last) % NUMBERS == at[i] - r < (FREE_WINDOWS - 1) * WINDOW_SIZE + 1
    {
      CyclicDistance(r, at[i]);
    }
  }

  // ---- the answers ----

  // A packet waits under this number.
  predicate IsWaiting(c: Channel, number: U16) {
    exists e <- c.incoming :: e.number == number
  }

  // Whether a command of a packet numbered `a` from its first command on is refused: the rest
  // of its datagram is then dropped, and it is not acknowledged.
  predicate Refused(c: Channel, r: nat, a: nat, whole: bool, room: bool, closing: bool) {
    var isNew := 0 < a - r < Ahead(r) && !IsWaiting(c, a % NUMBERS);
    if whole then isNew && !closing && !room
    else (isNew && (closing || !room)) || a % NUMBERS == r % NUMBERS
  }

  lemma WaitingIsTaken(c: Channel, packets: seq<Packet>, unit: nat, ks: seq<nat>, k: nat)
    requires Holding(c, packets, unit, ks) && k < |packets|
    requires 0 < NumberOf(packets, unit, k) as int - First(packets, unit, |c.dispatched|) < NUMBERS
    ensures var number := NumberOf(packets, unit, k) % NUMBERS;
      Seek(c.last, c.incoming, number).Taken? <==> IsWaiting(c, number)
  {
    hide Seek, First, Holding;
    var d := |c.dispatched|;
    LastNumber(c, packets, unit, ks);
    HoldingFacts(c, packets, unit, ks);
    AtNumbers(c, packets, unit, ks);
    var r, a := First(packets, unit, d), NumberOf(packets, unit, k);
    var number := a % NUMBERS;
    var at := NumbersAscend(packets, unit, ks, d, r);
    SeekMeans(r, c.incoming, at, a);
    var place := Seek(c.last, c.incoming, number);
    if place.Taken? {
      assert c.incoming[place.at] in c.incoming;
    } else {
      forall j | 0 <= j < |c.incoming|
        ensures c.incoming[j].number != number
      {
        Compared(r, a, at[j]);
      }
    }
  }

  // A whole command is refused if and only if it is new and there is no room for it; one that
  // is repeated, old or too early is not.
  lemma WholeAnswer(c: Channel, packets: seq<Packet>, unit: nat, ks: seq<nat>, k: nat, maximum: nat, room: bool, closing: bool)
    requires Holding(c, packets, unit, ks) && Tidy(c) && k < |packets| && |packets[k]| <= unit && |packets[k]| <= maximum
    requires Recent(First(packets, unit, |c.dispatched|), NumberOf(packets, unit, k))
    ensures var r, a := First(packets, unit, |c.dispatched|), NumberOf(packets, unit, k);
      Handle(c, CommandOf(packets[k], unit, a, 0), maximum, room, closing).1 == if Refused(c, r, a, true, room, closing) then -1 else 0
  {
    hide Holding, First, Seek, Recent, InWindow, IsWaiting, Dispatch;
    LastNumber(c, packets, unit, ks);
    var r, a := First(packets, unit, |c.dispatched|), NumberOf(packets, unit, k);
    RecentWindow(r, a);
    if 0 < a - r < Ahead(r) {
      WaitingIsTaken(c, packets, unit, ks, k);
    }
  }

  // A fragment is refused if and only if it would begin a packet for which there is no room, or
  // that a closing peer does not begin, or if its packet looks like the last one received.
  lemma FragmentAnswer(c: Channel, packets: seq<Packet>, unit: nat, ks: seq<nat>, k: nat, i: nat, maximum: nat, room: bool, closing: bool)
    requires Holding(c, packets, unit, ks) && Tidy(c) && k < |packets| && |packets[k]| > unit && i < Count(packets[k], unit)
    requires |packets[k]| <= maximum && Count(packets[k], unit) <= MAXIMUM_FRAGMENT_COUNT
    requires Recent(First(packets, unit, |c.dispatched|), NumberOf(packets, unit, k))
    ensures var r, a := First(packets, unit, |c.dispatched|), NumberOf(packets, unit, k);
      HandleFragment(c, CommandOf(packets[k], unit, a, i), maximum, room, closing).1 == if Refused(c, r, a, false, room, closing) then -1 else 0
  {
    hide Holding, First, Seek, Recent, InWindow, IsWaiting, Dispatch, FillAt, Awaiting;
    LastNumber(c, packets, unit, ks);
    LastIsNoPlace(c, packets, unit, ks);
    var p, r, a := packets[k], First(packets, unit, |c.dispatched|), NumberOf(packets, unit, k);
    RecentWindow(r, a);
    LastInWindow(r);
    FragmentBounds(p, unit, i);
    CountFits(p, unit);
    if 0 < a - r < Ahead(r) {
      WaitingIsTaken(c, packets, unit, ks, k);
      PlaceFor(c, packets, unit, ks, a % NUMBERS, k);
      var place := Seek(c.last, c.incoming, a % NUMBERS);
      if place.Taken? {
        WaitsPart(c, packets, unit, ks, place.at);
      }
    }
  }

  lemma LastInWindow(r: nat)
    ensures InWindow(r % NUMBERS, r % NUMBERS)
  {
  }

  // How everything that arrives in a run is answered.
  lemma AnsweredExactly(trace: seq<Link>, events: seq<Event>, unit: nat, t: nat)
    requires Run(trace, events, unit) && t < |events| && events[t].Arrived?
    requires events[t].k < |trace[t].packets| && events[t].i < Count(trace[t].packets[events[t].k], unit)
    requires var p := trace[t].packets[events[t].k]; |p| <= events[t].maximum && Count(p, unit) <= MAXIMUM_FRAGMENT_COUNT
    ensures var s, e := trace[t], events[t];
      && Tidy(s.channel) && |s.channel.dispatched| <= |s.packets|
      && var r, a := First(s.packets, unit, |s.channel.dispatched|), NumberOf(s.packets, unit, e.k);
         Handle(s.channel, CommandOf(s.packets[e.k], unit, a, e.i), e.maximum, e.room, e.closing).1 ==
           if Refused(s.channel, r, a, |s.packets[e.k]| <= unit, e.room, e.closing) then -1 else 0
  {
    assert Step(trace[t], events[t], trace[t + 1], unit);
    var s, e := trace[t], events[t];
    RunTake(trace, events, unit, t);
    var ks := RunHolds(trace[..t + 1], events[..t], unit);
    hide Holding, First, Recent, HandleFragment, HandleReliable, Refused;
    if |s.packets[e.k]| <= unit {
      WholeAnswer(s.channel, s.packets, unit, ks, e.k, e.maximum, e.room, e.closing);
    } else {
      FragmentAnswer(s.channel, s.packets, unit, ks, e.k, e.i, e.maximum, e.room, e.closing);
    }
  }

  lemma RunTake(trace: seq<Link>, events: seq<Event>, unit: nat, t: nat)
    requires Run(trace, events, unit) && t <= |events|
    ensures Run(trace[..t + 1], events[..t], unit)
  {
    forall u | 0 <= u < t
      ensures Step(trace[..t + 1][u], events[..t][u], trace[..t + 1][u + 1], unit)
    {
      assert Step(trace[u], events[u], trace[u + 1], unit);
    }
  }

  lemma CyclicDistance(r: nat, x: nat)
    requires r < x < r + NUMBERS
    ensures (x % NUMBERS as int - r % NUMBERS) % NUMBERS == x - r
  {
    Unwrap(r, x);
  }

  // What a command could be taken for: nothing waits under its number, or something waits that
  // lacks this fragment of a packet of this size.
  predicate Fits(c: Channel, command: Command, place: Place)
    requires place.Taken? ==> place.at < |c.incoming|
  {
    place.Gap? ||
      (var e := c.incoming[place.at];
       command.SendFragment? && e.fragmentCount == command.count && |e.data| == command.total && command.index < |e.have| && !e.have[command.index])
  }

  // A command whose number is not in the window, old or a lap ahead, whole or a fragment,
  // changes the channel if and only if it is not recent and fits: it is then taken for a
  // command of another packet.
  lemma TooOldIsMistaken(c: Channel, packets: seq<Packet>, unit: nat, ks: seq<nat>, k: nat, i: nat, maximum: nat)
    requires Holding(c, packets, unit, ks) && Tidy(c) && k < |packets| && i < Count(packets[k], unit)
    requires |packets[k]| <= maximum && Count(packets[k], unit) <= MAXIMUM_FRAGMENT_COUNT
    requires !(0 < NumberOf(packets, unit, k) as int - First(packets, unit, |c.dispatched|) < Ahead(First(packets, unit, |c.dispatched|)))
    ensures var r, a := First(packets, unit, |c.dispatched|), NumberOf(packets, unit, k);
      var command := CommandOf(packets[k], unit, a, i);
      var c' := Handle(c, command, maximum, true, false).0;
      var place := Seek(c.last, c.incoming, a % NUMBERS);
      && (c' != c <==> !Recent(r, a) && Fits(c, command, place))
      && (c' != c && |packets[k]| <= unit ==> c' == Dispatch(Inserted(c, place.at, Incoming(a % NUMBERS, 0, 0, [], packets[k]))))
      && (!Recent(r, a) && place.Taken? ==> place.at < |ks| && ks[place.at] != k)
  {
    hide Holding, First, Seek, Queue, HandleFragment, Recent, InWindow;
    LastNumber(c, packets, unit, ks);
    LastIsNoPlace(c, packets, unit, ks);
    var p, r, a := packets[k], First(packets, unit, |c.dispatched|), NumberOf(packets, unit, k);
    FarRecent(r, a);
    var command := CommandOf(p, unit, a, i);
    if |p| <= unit {
      MistakenWhole(c, a % NUMBERS, p);
    } else {
      FragmentBounds(p, unit, i);
      CountFits(p, unit);
      MistakenFragment(c, command, maximum);
    }
    var place := Seek(c.last, c.incoming, a % NUMBERS);
    if !Recent(r, a) && place.Taken? {
      AnotherPacket(c, packets, unit, ks, place.at, k);
    }
  }

  lemma FarRecent(r: nat, a: nat)
    requires !(0 < a - r < Ahead(r))
    ensures !Recent(r, a) <==> InWindow(r % NUMBERS, a % NUMBERS) && a % NUMBERS != r % NUMBERS
  {
    WindowExact(r, a);
    NoDistance(r, a);
  }

  // What waits under the low bits of a number that is not recent is another packet.
  lemma AnotherPacket(c: Channel, packets: seq<Packet>, unit: nat, ks: seq<nat>, at: nat, k: nat)
    requires Holding(c, packets, unit, ks) && k < |packets| && at < |c.incoming|
    requires var r, a := First(packets, unit, |c.dispatched|), NumberOf(packets, unit, k); !Recent(r, a)
    ensures at < |ks| && ks[at] != k
  {
    HoldingFacts(c, packets, unit, ks);
    AtNumbers(c, packets, unit, ks);
    var r, a := First(packets, unit, |c.dispatched|), NumberOf(packets, unit, k);
    if ks[at] == k {
      FirstMonotone(packets, unit, |c.dispatched|, k);
      SmallDistance(r, a);
    }
  }

  lemma SmallDistance(r: nat, a: nat)
    requires r < a < r + NUMBERS
    ensures (a as int - r) % NUMBERS == a - r
  {
  }

  lemma CountFits(p: Packet, unit: nat)
    requires unit > 0 && |p| > unit
    ensures Count(p, unit) <= |p|
  {
    FragmentBounds(p, unit, Count(p, unit) - 1);
    MulMonotone(1, unit, Count(p, unit) - 1);
  }

  lemma MistakenWhole(c: Channel, number: U16, p: Packet)
    requires c.last == number ==> Seek(c.last, c.incoming, number).Gap?
    ensures HandleReliable(c, number, p, true, false).0 != c <==>
      InWindow(c.last, number) && number != c.last && Seek(c.last, c.incoming, number).Gap?
    ensures var c' := HandleReliable(c, number, p, true, false).0;
      c' != c ==> c' == Dispatch(Inserted(c, Seek(c.last, c.incoming, number).at, Incoming(number, 0, 0, [], p)))
  {
    var place := Seek(c.last, c.incoming, number);
    if place.Gap? {
      DispatchKeeps(Inserted(c, place.at, Incoming(number, 0, 0, [], p)));
    }
  }

  lemma MistakenFragment(c: Channel, f: Command, maximum: nat)
    requires f.SendFragment? && Tidy(c) && f.data != [] && |f.data| <= maximum && FragmentFits(f, maximum)
    requires c.last == f.start ==> Seek(c.last, c.incoming, f.start).Gap?
    ensures HandleFragment(c, f, maximum, true, false).0 != c <==>
      InWindow(c.last, f.start) && f.start != c.last && Fits(c, f, Seek(c.last, c.incoming, f.start))
  {
    hide Seek, InWindow, Queue, FillAt, Dispatch, Awaiting;
    var place := Seek(c.last, c.incoming, f.start);
    if place.Taken? {
      var e := c.incoming[place.at];
      if e.fragmentCount == f.count && |e.data| == f.total {
        FilledDiffers(c, place.at, f);
      }
    } else {
      var e := Awaiting(f.start, f.count, f.total);
      var q := Queue(c, e, true);
      QueuedGap(c, e);
      if q.Queued? {
        DispatchKeeps(Inserted(c, place.at, e));
        FillKeeps(q.channel, q.at, f);
      }
    }
  }

  lemma QueuedGap(c: Channel, e: Incoming)
    requires Seek(c.last, c.incoming, e.number).Gap?
    ensures var q := Queue(c, e, true);
      if InWindow(c.last, e.number) && e.number != c.last
      then q.Queued? && q.channel == Dispatch(Inserted(c, Seek(c.last, c.incoming, e.number).at, e)) else q == Discarded
  {
  }

  lemma FilledDiffers(c: Channel, at: nat, f: Command)
    requires f.SendFragment? && at < |c.incoming| && WellMade(c.incoming[at]) && f.index < |c.incoming[at].have|
    requires f.offset + |f.data| <= |c.incoming[at].data|
    ensures FillAt(c, at, f.index, f.offset, f.data) != c <==> !c.incoming[at].have[f.index]
  {
    var e := Fill(c.incoming[at], f.index, f.offset, f.data);
    var c' := c.(incoming := c.incoming[at := e]);
    if c.incoming[at].have[f.index] {
      assert c'.incoming == c.incoming;
    } else {
      DispatchStops(c', at);
      assert c'.incoming[at].have[f.index] && c'.incoming[at] != c.incoming[at];
      if Leaving(c') == 0 {
        assert c'.incoming[0..] == c'.incoming;
      }
    }
  }

  lemma FillKeeps(c: Channel, at: nat, f: Command)
    requires f.SendFragment? && at < |c.incoming| && WellMade(c.incoming[at]) && f.index < |c.incoming[at].have|
    requires f.offset + |f.data| <= |c.incoming[at].data|
    ensures var c' := FillAt(c, at, f.index, f.offset, f.data); |c'.incoming| + |c'.dispatched| == |c.incoming| + |c.dispatched|
  {
    var e := Fill(c.incoming[at], f.index, f.offset, f.data);
    DispatchKeeps(c.(incoming := c.incoming[at := e]));
  }

  // Packets only move from those that wait to those that have left.
  lemma {:induction false} DispatchKeeps(c: Channel)
    ensures |Dispatch(c).incoming| + |Dispatch(c).dispatched| == |c.incoming| + |c.dispatched|
    decreases |c.incoming|
  {
    if Ready(c) {
      DispatchKeeps(DispatchOne(c));
    }
  }

  // A command one lap before the next is such a one: with nothing waiting, its packet leaves
  // once more.
  lemma LapBehind(c: Channel, packets: seq<Packet>, unit: nat, k: nat, maximum: nat)
    requires Holding(c, packets, unit, []) && k < |packets| && |packets[k]| <= unit && |packets[k]| <= maximum
    requires NumberOf(packets, unit, k) + NUMBERS == First(packets, unit, |c.dispatched|) + 1
    ensures var r, a := First(packets, unit, |c.dispatched|), NumberOf(packets, unit, k);
      && !Recent(r, a)
      && Handle(c, CommandOf(packets[k], unit, a, 0), maximum, true, false).0 == Channel((c.last + 1) % NUMBERS, [], c.dispatched + [packets[k]])
  {
    var r, a := First(packets, unit, |c.dispatched|), NumberOf(packets, unit, k);
    var e := Incoming(a % NUMBERS, 0, 0, [], packets[k]);
    LastNumber(c, packets, unit, []);
    HoldingFacts(c, packets, unit, []);
    hide Holding, First, Recent, InWindow, Handle;
    LapNumbers(r, a);
    TooOldIsMistaken(c, packets, unit, [], k, 0, maximum);
    NextNumber(r);
    assert Ready(Inserted(c, 0, e));
  }

  lemma LapNumbers(r: nat, a: nat)
    requires a + NUMBERS == r + 1
    ensures !Recent(r, a) && a % NUMBERS == (r + 1) % NUMBERS
  {
    var q, m := (r + 1) / 0x1_0000, (r + 1) % 0x1_0000;
    DivMod(a as int - r, 0x1_0000, -1, 1);
    DivMod(a, 0x1_0000, q - 1, m);
  }

  lemma {:induction false} FirstWhole(packets: seq<Packet>, unit: nat, k: nat)
    requires unit > 0 && k <= |packets| && forall j | 0 <= j < k :: |packets[j]| <= unit
    ensures First(packets, unit, k) == k
    decreases k
  {
    if k > 0 {
      FirstWhole(packets, unit, k - 1);
    }
  }

  // A channel on which it happens: the first of 65536 packets comes again after the last.
  lemma FirstComesAgain(p: Packet)
    requires |p| == 1
    ensures var packets := [p] + seq(NUMBERS - 1, _ => []);
      var c := Channel(0, [], packets);
      Holding(c, packets, 1, []) && Handle(c, CommandOf(p, 1, 1, 0), 1, true, false).0.dispatched == packets + [p]
  {
    var packets := [p] + seq(NUMBERS - 1, _ => []);
    var c := Channel(0, [], packets);
    FirstWhole(packets, 1, NUMBERS);
    assert packets[..NUMBERS] == packets && packets[0] == p;
    LapBehind(c, packets, 1, 0, 1);
  }
}
