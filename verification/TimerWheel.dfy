// A timing wheel: one list for every tick of the near future, used round and round.

module TimerWheel {
  import opened Words
  import opened TimerLists

  type Row = seq<Item>

  ghost function Flat(rows: seq<Row>): seq<Item> {
    if rows == [] then [] else rows[0] + Flat(rows[1..])
  }

  lemma {:induction false} FlatConcat(a: seq<Row>, b: seq<Row>)
    ensures Flat(a + b) == Flat(a) + Flat(b)
  {
    if a == [] {
      assert a + b == b;
    } else {
      assert (a + b)[1..] == a[1..] + b;
      FlatConcat(a[1..], b);
    }
  }

  lemma {:induction false} FlatMembers(rows: seq<Row>, x: Item) returns (d: nat)
    requires x in Flat(rows)
    ensures d < |rows| && x in rows[d]
  {
    if x in rows[0] {
      d := 0;
    } else {
      d := FlatMembers(rows[1..], x);
      d := d + 1;
    }
  }

  lemma {:induction false} FlatHas(rows: seq<Row>, d: nat, x: Item)
    requires d < |rows| && x in rows[d]
    ensures x in Flat(rows)
  {
    if d > 0 {
      FlatHas(rows[1..], d - 1, x);
    }
  }

  lemma {:induction false} FlatNone(rows: seq<Row>)
    requires forall d | 0 <= d < |rows| :: rows[d] == []
    ensures Flat(rows) == []
  {
    if rows != [] {
      FlatNone(rows[1..]);
    }
  }

  lemma FlatTake(rows: seq<Row>, i: nat)
    requires i < |rows|
    ensures Flat(rows[..i + 1]) == Flat(rows[..i]) + rows[i]
  {
    assert rows[..i + 1] == rows[..i] + [rows[i]];
    FlatConcat(rows[..i], [rows[i]]);
    var one: seq<Row> := [rows[i]];
    assert one[1..] == [];
    assert Flat(one) == rows[i] + [];
  }

  function Nothing(n: nat): (r: seq<Row>)
    ensures |r| == n && forall d | 0 <= d < n :: r[d] == []
  {
    seq(n, _ => [])
  }

  // Slots are counted on from the current one.
  function SlotOf(first: nat, d: nat, n: nat): (k: nat)
    requires n > 0
    ensures k < n
  {
    (first + d) % n
  }

  lemma SlotsDiffer(first: nat, a: nat, b: nat, n: nat)
    requires a < b < n
    ensures SlotOf(first, a, n) != SlotOf(first, b, n)
  {
    var q, r := (first + a) / n, (first + a) % n;
    assert first + a == q * n + r;
    if r + (b - a) < n {
      DivMod(first + b, n, q, r + (b - a));
    } else {
      assert (q + 1) * n == q * n + n;
      DivMod(first + b, n, q + 1, r + (b - a) - n);
    }
  }

  lemma SlotTurns(first: nat, m: nat, d: nat, n: nat)
    requires n > 0
    ensures SlotOf(first + m, d, n) == SlotOf(first, m + d, n)
    ensures m + d >= n ==> SlotOf(first, m + d, n) == SlotOf(first, m + d - n, n)
  {
    if m + d >= n {
      var x := first + (m + d - n);
      var q, r := x / n, x % n;
      assert x == q * n + r;
      assert (q + 1) * n == q * n + n;
      DivMod(x + n, n, q + 1, r);
    }
  }

  ghost function Items(rows: seq<Row>): set<Item> {
    set d, i | 0 <= d < |rows| && 0 <= i < |rows[d]| :: rows[d][i]
  }

  // The lists of the slots run through the rows.
  ghost predicate Hangs(slots: seq<Link>, first: nat, rows: seq<Row>)
    requires |rows| == |slots| > 0
    reads slots, Items(rows)
  {
    forall d | 0 <= d < |rows| :: Strung(slots[SlotOf(first, d, |slots|)], rows[d])
  }

  // Each item is in the row of its tick, which is not after it expires.
  ghost predicate Due(rows: seq<Row>, start: nat)
    reads Items(rows)
  {
    forall d, i | 0 <= d < |rows| && 0 <= i < |rows[d]| :: rows[d][i].due == start + d <= rows[d][i].expires
  }

  lemma DueSplit(rows: seq<Row>, start: nat, i: nat)
    requires Due(rows, start) && i <= |rows|
    ensures var w, n := Flat(rows), |Flat(rows[..i])|;
      && n <= |w| && w[..n] == Flat(rows[..i]) && w[n..] == Flat(rows[i..])
      && (forall j | 0 <= j < n :: w[j].due < start + i)
      && (forall j | n <= j < |w| :: start + i <= w[j].due <= w[j].expires)
  {
    assert rows == rows[..i] + rows[i..];
    FlatConcat(rows[..i], rows[i..]);
    var w, n := Flat(rows), |Flat(rows[..i])|;
    forall j | 0 <= j < n
      ensures w[j].due < start + i
    {
      assert w[j] == Flat(rows[..i])[j];
      var d := FlatMembers(rows[..i], w[j]);
      var k :| 0 <= k < |rows[d]| && rows[d][k] == w[j];
    }
    forall j | n <= j < |w|
      ensures start + i <= w[j].due <= w[j].expires
    {
      assert w[j] == Flat(rows[i..])[j - n];
      var d := FlatMembers(rows[i..], w[j]);
      var k :| 0 <= k < |rows[i + d]| && rows[i + d][k] == w[j];
    }
  }

  lemma FlatItems(rows: seq<Row>)
    ensures forall x <- Flat(rows) :: x in Items(rows)
  {
    forall x <- Flat(rows)
      ensures x in Items(rows)
    {
      var d := FlatMembers(rows, x);
      var i :| 0 <= i < |rows[d]| && rows[d][i] == x;
    }
  }

  // What is in the rows, in whatever order.
  lemma ItemsAre(rows: seq<Row>)
    ensures (forall x <- Items(rows) :: x in Flat(rows)) && forall x <- Flat(rows) :: x in Items(rows)
  {
    FlatItems(rows);
    forall x <- Items(rows)
      ensures x in Flat(rows)
    {
      var d, i :| 0 <= d < |rows| && 0 <= i < |rows[d]| && rows[d][i] == x;
      FlatHas(rows, d, x);
    }
  }

  lemma FlatPut(rows: seq<Row>, d: nat, x: Item)
    requires d < |rows|
    ensures Flat(rows[d := rows[d] + [x]]) == Flat(rows[..d + 1]) + [x] + Flat(rows[d + 1..])
  {
    var more := rows[d := rows[d] + [x]];
    assert more == more[..d + 1] + more[d + 1..] && more[d + 1..] == rows[d + 1..];
    FlatConcat(more[..d + 1], more[d + 1..]);
    FlatTake(more, d);
    FlatTake(rows, d);
    assert more[..d] == rows[..d];
  }

  class Wheel {
    const slots: seq<Link>
    var start: nat
    var first: nat
    ghost var rows: seq<Row>

    // What waits, in the order in which it will be taken.
    ghost function Waiting(): seq<Item>
      reads this`rows
    {
      Flat(rows)
    }

    ghost predicate Valid()
      reads this, slots, Items(rows)
    {
      && |rows| == |slots| > 0 && (forall i, j | 0 <= i < j < |slots| :: slots[i] != slots[j])
      && Hangs(slots, first, rows) && Due(rows, start)
    }

    constructor (size: nat, now: nat)
      requires 0 < size < 0x8000_0000
      ensures Valid() && Waiting() == [] && start == now && |slots| == size && fresh(slots)
    {
      var links: seq<Link> := [];
      var i := 0;
      while i < size
        invariant 0 <= i == |links| <= size && fresh(links)
        invariant forall a, b | 0 <= a < b < i :: links[a] != links[b]
        invariant forall a | 0 <= a < i :: Strung(links[a], [])
      {
        var l := new Link();
        links := links + [l];
        i := i + 1;
      }
      slots, start, first := links, now, 0;
      rows := Nothing(size);
      FlatNone(Nothing(size));
    }

    // Puts an item in the slot of its tick, or in the last one if that is too far ahead; fails
    // if its time is over.
    method AddTimeout(x: Item, now: nat) returns (ok: bool, ghost at: nat)
      requires Valid()
      modifies this`rows, slots`head, slots`tail, x`prev, x`next, x`link, x`due, Items(rows)`next
      ensures Valid() && ok == (start <= now <= x.expires)
      ensures !ok || old(x.link) != null ==> Waiting() == old(Waiting()) && x.due == old(x.due)
      ensures ok && old(x.link) == null ==>
        && x.due == Min(x.expires, start + |slots| - 1) && at <= |old(Waiting())|
        && Waiting() == old(Waiting())[..at] + [x] + old(Waiting())[at..]
        && (forall j | 0 <= j < at :: old(Waiting())[j].due <= x.due)
        && (forall j | at <= j < |old(Waiting())| :: old(Waiting())[j].due > x.due)
    {
      hide Strung, SlotOf, Flat, Hangs, Due;
      at := 0;
      if now < start || x.expires < now {
        return false, at;
      }
      var diff := x.expires - start;
      if diff >= |slots| {
        diff := |slots| - 1;
      }
      ok := true;
      if x.link != null {
        Hang(x, diff);
        return;
      }
      ghost var w := Waiting();
      NoneWaiting(x);
      DueSplit(rows, start, diff + 1);
      at := |Flat(rows[..diff + 1])|;
      FlatPut(rows, diff, x);
      forall j | 0 <= j < |w|
        ensures w[j] != x && if j < at then w[j].due <= start + diff else w[j].due > start + diff
      {
        assert w[j] in w;
      }
      x.due := start + diff;
      FlatItems(rows);
      ghost var items := Items(rows);
      Hang(x, diff);
      forall j | 0 <= j < |w|
        ensures if j < at then w[j].due <= x.due else w[j].due > x.due
      {
        assert w[j] in w && w[j] in items;
      }
    }

    // An item that is nowhere goes to the end of a row; one that is somewhere stays there.
    method Hang(x: Item, d: nat)
      requires Valid() && d < |slots| && start + d <= x.expires && (x.link == null ==> x.due == start + d)
      modifies this`rows, slots`head, slots`tail, x`prev, x`next, x`link, Items(rows)`next
      ensures Valid()
      ensures rows == if old(x.link) == null then old(rows)[d := old(rows)[d] + [x]] else old(rows)
      ensures forall y <- old(Items(rows)) :: y.due == old(y.due)
    {
      hide Strung, SlotOf;
      var k := SlotOf(first, d, |slots|);
      if x.link != null {
        AddTail(slots[k], x, rows[d]);
        return;
      }
      forall e | 0 <= e < |slots| && e != d
        ensures slots[SlotOf(first, e, |slots|)] != slots[k] && x !in rows[e] && forall y <- rows[e] :: y !in rows[d]
      {
        RowsApart(e, d);
        NotWaiting(e, x);
      }
      NotWaiting(d, x);
      AddTail(slots[k], x, rows[d]);
      rows := rows[d := rows[d] + [x]];
      forall e | 0 <= e < |slots|
        ensures Strung(slots[SlotOf(first, e, |slots|)], rows[e])
      {
      }
    }

    lemma NoneWaiting(x: Item)
      requires Valid() && x.link == null
      ensures x !in Waiting() && x !in Items(rows)
    {
      forall d | 0 <= d < |rows|
        ensures x !in rows[d]
      {
        NotWaiting(d, x);
      }
      if x in Waiting() {
        var d := FlatMembers(rows, x);
        NotWaiting(d, x);
      }
    }

    // An item that was taken too early.
    method AddAgain(x: Item, now: nat)
      requires Valid() && x.link == null && start <= now <= x.expires
      modifies this`rows, slots`head, slots`tail, x`prev, x`next, x`link, x`due, x`timedOut, Items(rows)`next
      ensures Valid() && start == old(start) && x in Waiting() && !x.timedOut
      ensures (forall y <- old(Waiting()) :: y in Waiting()) && (forall y <- Waiting() :: y in old(Waiting()) || y == x)
      ensures Items(rows) <= old(Items(rows)) + {x}
    {
      hide Valid, Items;
      ghost var w := Waiting();
      ItemsAre(rows);
      assert forall y <- w :: y in Items(rows);
      ghost var at;
      var ok;
      ok, at := AddTimeout(x, now);
      assert Waiting() == w[..at] + [x] + w[at..] && w == w[..at] + w[at..];
      ItemsAre(rows);
      assert forall y <- Items(rows) :: y in Waiting();
      assert forall y <- Waiting() :: y in w || y == x;
      Unmark(x);
    }

    method Unmark(x: Item)
      requires Valid()
      modifies x`timedOut
      ensures Valid() && !x.timedOut
    {
      ghost var looks := seq(|rows|, d requires 0 <= d < |rows| reads this, Items(rows) => Look(rows[d]));
      forall d | 0 <= d < |rows|
        ensures Straight(slots[SlotOf(first, d, |slots|)], rows[d], looks[d])
      {
        StrungLook(slots[SlotOf(first, d, |slots|)], rows[d]);
      }
      hide SlotOf, Strung, Straight;
      x.timedOut := false;
      forall d | 0 <= d < |rows|
        ensures Strung(slots[SlotOf(first, d, |slots|)], rows[d])
      {
        assert Look(rows[d]) == looks[d];
        LookStrung(slots[SlotOf(first, d, |slots|)], rows[d]);
      }
    }

    lemma RowsApart(a: nat, b: nat)
      requires Valid() && a < |slots| && b < |slots| && a != b
      ensures slots[SlotOf(first, a, |slots|)] != slots[SlotOf(first, b, |slots|)]
      ensures forall y <- rows[a] :: y !in rows[b]
    {
      var k, l := SlotOf(first, a, |slots|), SlotOf(first, b, |slots|);
      SlotsDiffer(first, if a < b then a else b, if a < b then b else a, |slots|);
      assert slots[if k < l then k else l] != slots[if k < l then l else k];
      Apart(slots[k], rows[a], slots[l], rows[b]);
    }

    lemma NotWaiting(d: nat, x: Item)
      requires Valid() && d < |slots| && x.link == null
      ensures x !in rows[d]
    {
      if x in rows[d] {
        InList(slots[SlotOf(first, d, |slots|)], rows[d], x);
      }
    }

    // Empties one row into a list outside.
    method TakeRow(d: nat, result: Link, ghost got: seq<Item>)
      requires Valid() && d < |slots| && Strung(result, got) && result !in slots
      modifies this`rows, slots`head, slots`tail, result`head, result`tail, Items(rows)`prev, Items(rows)`link, Members(got)`next
      ensures Valid() && rows == old(rows)[d := []] && Strung(result, got + old(rows)[d])
    {
      hide Strung, SlotOf;
      var k := SlotOf(first, d, |slots|);
      forall e | 0 <= e < |slots| && e != d
        ensures slots[SlotOf(first, e, |slots|)] != slots[k] && slots[SlotOf(first, e, |slots|)] != result
        ensures (forall y <- rows[e] :: y !in rows[d]) && forall y <- rows[e] :: y !in got
      {
        RowsApart(e, d);
        assert slots[SlotOf(first, e, |slots|)] in slots && (got != [] ==> got[|got| - 1] in got);
        Apart(slots[SlotOf(first, e, |slots|)], rows[e], result, got);
      }
      assert Last(got) <= set y <- got;
      Join(result, slots[k], got, rows[d]);
      forall e | 0 <= e < |slots| && e != d
        ensures Strung(slots[SlotOf(first, e, |slots|)], rows[e])
      {
      }
      rows := rows[d := []];
      forall e | 0 <= e < |slots|
        ensures Strung(slots[SlotOf(first, e, |slots|)], rows[e])
      {
      }
    }

    // Takes all that is due by now, in order.
    method TakeAllTimeout(now: nat, result: Link, ghost got: seq<Item>) returns (ghost taken: seq<Item>)
      requires Valid() && Strung(result, got) && result !in slots && now < start + 0x7FFF_FFFF
      modifies this`rows, this`start, this`first, slots`head, slots`tail, result`head, result`tail
      modifies Items(rows)`prev, Items(rows)`link, Items(rows)`next, Members(got)`next
      ensures Valid() && Strung(result, got + taken) && old(Waiting()) == taken + Waiting()
      ensures now < old(start) ==> taken == [] && start == old(start)
      ensures now >= old(start) ==> start == now
      ensures now >= old(start) ==> (forall x <- taken :: x.due <= now) && forall x <- Waiting() :: now < x.due <= x.expires
      ensures Items(rows) <= old(Items(rows))
    {
      hide Strung, Hangs, Due, Flat, Items;
      taken := [];
      if now < start {
        assert got + [] == got;
        return;
      }
      ghost var before := rows;
      var count := now - start + 1;
      if count > |slots| {
        count := |slots|;
      }
      TakeRows(count, result, got);
      ItemsLeft(before, count);
      TakenDue(before, start, count, now);
      taken := Flat(before[..count]);
      assert rows[count..] == before[count..];
      Turned(slots, first, rows, start, count - 1, now);
      ghost var items := Items(rows[count - 1..] + Nothing(count - 1));
      assert forall x {:trigger x in items} | x in items :: x as object != this;
      start, first := now, first + (count - 1);
      rows := rows[count - 1..] + Nothing(count - 1);
    }

    // Empties the first rows into a list outside, one after the other.
    method TakeRows(count: nat, result: Link, ghost got: seq<Item>)
      requires Valid() && Strung(result, got) && result !in slots && count <= |slots|
      modifies this`rows, slots`head, slots`tail, result`head, result`tail
      modifies Items(rows)`prev, Items(rows)`link, Items(rows)`next, Members(got)`next
      ensures Valid() && rows == Nothing(count) + old(rows)[count..] && Due(old(rows), start)
      ensures Strung(result, got + Flat(old(rows)[..count]))
    {
      hide Strung, Hangs, Flat, Items;
      ghost var before := rows;
      var i := 0;
      TakenNone(before);
      assert got + [] == got;
      while i < count
        invariant 0 <= i <= count && Valid()
        invariant rows == Nothing(i) + before[i..] && Due(before, start)
        invariant Strung(result, got + Flat(before[..i]))
      {
        ghost var so := got + Flat(before[..i]);
        FlatItems(before[..i]);
        ItemsOf(before, rows, i);
        TakeRow(i, result, so);
        FlatTake(before, i);
        OneEmpty(before, i);
        ConcatAssociative(got, Flat(before[..i]), before[i]);
        i := i + 1;
      }
    }
  }

  // Rows that are left, in their new places.
  lemma ItemsLeft(rows: seq<Row>, count: nat)
    requires 0 < count <= |rows|
    ensures var left := Nothing(count) + rows[count..];
      Items(left[count - 1..] + Nothing(count - 1)) <= Items(rows)
  {
    var left := Nothing(count) + rows[count..];
    var turned := left[count - 1..] + Nothing(count - 1);
    forall x <- Items(turned)
      ensures x in Items(rows)
    {
      var d, i :| 0 <= d < |turned| && 0 <= i < |turned[d]| && turned[d][i] == x;
      assert rows[d + count - 1][i] == x;
    }
  }

  lemma TakenDue(rows: seq<Row>, start: nat, count: nat, now: nat)
    requires Due(rows, start) && count <= |rows| && start + count <= now + 1 && (start + count == now + 1 || count == |rows|)
    ensures Flat(rows) == Flat(rows[..count]) + Flat(rows[count..])
    ensures forall x <- Flat(rows[..count]) :: x.due <= now
    ensures forall x <- Flat(rows[count..]) :: now < x.due <= x.expires
  {
    DueSplit(rows, start, count);
    var w, n := Flat(rows), |Flat(rows[..count])|;
    assert w == w[..n] + w[n..];
    forall x <- Flat(rows[..count])
      ensures x.due <= now
    {
      var j :| 0 <= j < n && Flat(rows[..count])[j] == x;
      assert w[j] == x;
    }
    forall x <- Flat(rows[count..])
      ensures now < x.due <= x.expires
    {
      var j :| 0 <= j < |w| - n && Flat(rows[count..])[j] == x;
      assert w[n + j] == x;
    }
  }

  // The wheel turns by rows that are empty.
  lemma Turned(slots: seq<Link>, first: nat, rows: seq<Row>, start: nat, m: nat, now: nat)
    requires m < |rows| == |slots| && Hangs(slots, first, rows) && Due(rows, start)
    requires (forall d | 0 <= d <= m :: rows[d] == []) && (now == start + m || m + 1 == |rows|)
    ensures var turned := rows[m..] + Nothing(m);
      |turned| == |slots| && Hangs(slots, first + m, turned) && Due(turned, now) && Flat(turned) == Flat(rows[m + 1..])
  {
    var turned := rows[m..] + Nothing(m);
    forall d | 0 <= d < |turned|
      ensures Strung(slots[SlotOf(first + m, d, |slots|)], turned[d])
    {
      SlotTurns(first, m, d, |slots|);
    }
    FlatConcat(rows[m..], Nothing(m));
    FlatNone(Nothing(m));
    assert rows[m..][1..] == rows[m + 1..];
  }

  lemma ItemsOf(before: seq<Row>, rows: seq<Row>, i: nat)
    requires i <= |before| && rows == Nothing(i) + before[i..]
    ensures Items(rows) <= Items(before) && Items(before[..i]) <= Items(before)
  {
    forall x <- Items(rows)
      ensures x in Items(before)
    {
      var d, j :| 0 <= d < |rows| && 0 <= j < |rows[d]| && rows[d][j] == x;
      assert before[d][j] == x;
    }
    forall x <- Items(before[..i])
      ensures x in Items(before)
    {
      var d, j :| 0 <= d < i && 0 <= j < |before[..i][d]| && before[..i][d][j] == x;
      assert before[d][j] == x;
    }
  }

  lemma OneEmpty(before: seq<Row>, i: nat)
    requires i < |before|
    ensures (Nothing(i) + before[i..])[i] == before[i]
    ensures (Nothing(i) + before[i..])[i := []] == Nothing(i + 1) + before[i + 1..]
  {
  }

  lemma TakenNone(rows: seq<Row>)
    ensures rows == Nothing(0) + rows[0..] && Flat(rows[..0]) == []
  {
  }

  lemma InWheel(w: Wheel, x: Item)
    requires w.Valid() && x in Items(w.rows)
    ensures x.link in w.slots
  {
    var d, i :| 0 <= d < |w.rows| && 0 <= i < |w.rows[d]| && w.rows[d][i] == x;
    InList(w.slots[SlotOf(w.first, d, |w.slots|)], w.rows[d], x);
  }

  // A list outside the wheel shares no item with it.
  lemma Outside(w: Wheel, l: Link, s: seq<Item>)
    requires w.Valid() && Strung(l, s) && l !in w.slots
    ensures forall x <- s :: x !in Items(w.rows)
  {
    forall x <- s
      ensures x !in Items(w.rows)
    {
      InList(l, s, x);
      if x in Items(w.rows) {
        InWheel(w, x);
      }
    }
  }

  // An item is neither a list nor a wheel.
  lemma Kinds(w: Wheel, s: seq<Item>)
    ensures forall x {:trigger x in s} | x in s :: x as object != w
    ensures forall x, l {:trigger x in s, l in w.slots} | x in s && l in w.slots :: x as object != l
    ensures forall x, l: Link {:trigger x in Items(w.rows), l.head} | x in Items(w.rows) :: x as object != l
  {
  }

  // In no list, and not given up before their time.
  ghost predicate Over(s: seq<Item>, now: nat)
    reads s
  {
    forall x <- s :: x.link == null && (x.timedOut ==> x.expires <= now)
  }

  lemma NoneOver(now: nat)
    ensures Over([], now)
  {
  }

  lemma OverMore(s: seq<Item>, x: Item, now: nat)
    requires Over(s, now) && x.link == null && (x.timedOut ==> x.expires <= now)
    ensures Over(s + [x], now)
  {
  }

  lemma LateAre(ready: seq<Item>, taken: seq<Item>, late: set<Item>, now: nat)
    requires (forall x <- ready :: x.timedOut <==> x in late) && forall x <- taken :: x.timedOut
    ensures Sifted(ready + taken, LateOf(ready + taken), now) == Sifted(ready + taken, late + Members(taken), now)
  {
    SiftedSame(ready + taken, LateOf(ready + taken), late + Members(taken), now);
  }

  lemma Front(s: seq<Item>, a: seq<Item>, b: seq<Item>, items: set<Item>)
    requires s == a + b && forall x <- s :: x in items
    ensures Members(a) <= items
  {
    assert forall x <- a :: x in s;
  }

  // Marks all the items of a list.
  method Mark(l: Link, ghost s: seq<Item>)
    requires Strung(l, s)
    modifies Members(s)`timedOut
    ensures Strung(l, s) && forall x <- s :: x.timedOut
  {
    var x := l.head;
    ghost var k := 0;
    while x != null
      invariant 0 <= k <= |s| && x == (if k == |s| then null else s[k]) && Strung(l, s)
      invariant forall i | 0 <= i < k :: s[i].timedOut
      decreases |s| - k
    {
      ghost var p := Places(l, s);
      assert p[k].next == x.next && x in s;
      x.timedOut := true;
      forall i | 0 <= i < |s|
        ensures Hung(l, s, i)
      {
        assert p[i].link == l;
      }
      x := x.next;
      k := k + 1;
    }
  }

  // The events that make an item ready, when those in `free` are in no list: the first of each.
  ghost function Activated(events: seq<Item>, free: set<Item>): seq<Item> {
    if events == [] then []
    else if events[0] in free then [events[0]] + Activated(events[1..], free - {events[0]})
    else Activated(events[1..], free)
  }

  ghost function FreeOf(events: seq<Item>): set<Item>
    reads events
  {
    set x | x in events && x.link == null
  }

  ghost function LateOf(s: seq<Item>): set<Item>
    reads s
  {
    set x | x in s && x.timedOut
  }

  // What is processed: all but those that the wheel has given up before their time.
  function Sifted(s: seq<Item>, late: set<Item>, now: nat): (r: seq<Item>)
    ensures forall x <- r :: x in s
  {
    if s == [] then []
    else
      var n := |s| - 1;
      Sifted(s[..n], late, now) + if s[n] in late && now < s[n].expires then [] else [s[n]]
  }

  lemma SiftedNone(late: set<Item>, now: nat)
    ensures Sifted([], late, now) == []
  {
  }

  lemma SiftedNext(s: seq<Item>, x: Item, late: set<Item>, now: nat)
    ensures Sifted(s + [x], late, now) == Sifted(s, late, now) + if x in late && now < x.expires then [] else [x]
  {
    assert (s + [x])[..|s|] == s;
  }

  lemma {:induction false} SiftedSame(s: seq<Item>, a: set<Item>, b: set<Item>, now: nat)
    requires forall x <- s :: x in a <==> x in b
    ensures Sifted(s, a, now) == Sifted(s, b, now)
  {
    if s != [] {
      SiftedSame(s[..|s| - 1], a, b, now);
    }
  }

  ghost predicate Once(s: seq<Item>) {
    forall i, j | 0 <= i < j < |s| :: s[i] != s[j]
  }

  // Nothing is processed twice.
  lemma {:induction false} SiftedOnce(s: seq<Item>, late: set<Item>, now: nat)
    requires Once(s)
    ensures Once(Sifted(s, late, now))
  {
    if s != [] {
      var n := |s| - 1;
      SiftedOnce(s[..n], late, now);
      assert s[n] !in s[..n];
      AppendOnce(Sifted(s[..n], late, now), s[n]);
    }
  }

  lemma AppendOnce(s: seq<Item>, x: Item)
    requires x !in s && Once(s)
    ensures Once(s + [x]) && s + [] == s
  {
  }

  class EventLoop {
    const wheel: Wheel
    const active: Link
    const timeout: Link
    ghost var ready: seq<Item>

    ghost predicate Valid()
      reads this, wheel, wheel.slots, Items(wheel.rows), active, timeout, ready
    {
      && wheel.Valid() && Strung(active, ready) && Strung(timeout, [])
      && active !in wheel.slots && timeout !in wheel.slots && active != timeout
    }

    constructor (size: nat, now: nat)
      requires 0 < size < 0x8000_0000
      ensures Valid() && ready == []
    {
      wheel := new Wheel(size, now);
      active := new Link();
      timeout := new Link();
      ready := [];
    }

    // An item with an event is ready, unless it is in a list already.
    method Activate(x: Item)
      requires Valid()
      modifies this`ready, active`head, active`tail, x`prev, x`next, x`link, Members(ready)`next
      ensures Valid() && ready == (old(ready) + if old(x.link) == null then [x] else []) && x.link != null
    {
      Outside(wheel, active, ready);
      if x.link == null {
        wheel.NoneWaiting(x);
      }
      hide Strung, Wheel.Valid;
      ghost var free := x.link == null;
      assert Last(ready) <= set y <- ready;
      AddTail(active, x, ready);
      if free {
        ready := ready + [x];
        InList(active, ready, x);
      }
    }

    // The lists are apart, and the one for timeouts holds `late`.
    ghost predicate Sorted(late: seq<Item>)
      reads this, wheel, wheel.slots, Items(wheel.rows), active, timeout, ready, late
    {
      && wheel.Valid() && Strung(active, ready) && Strung(timeout, late)
      && active !in wheel.slots && timeout !in wheel.slots && active != timeout
    }

    // Takes what is due.
    method Collect(now: nat) returns (ghost taken: seq<Item>)
      requires Valid() && wheel.start <= now < wheel.start + 0x7FFF_FFFF
      modifies wheel, wheel.slots`head, wheel.slots`tail, timeout`head, timeout`tail, Items(wheel.rows)`prev, Items(wheel.rows)`next,
        Items(wheel.rows)`link
      ensures Sorted(taken) && wheel.start == now && old(wheel.Waiting()) == taken + wheel.Waiting()
      ensures Members(taken) <= old(Items(wheel.rows)) && Items(wheel.rows) <= old(Items(wheel.rows))
      ensures (forall x <- taken :: x.due <= now) && forall x <- wheel.Waiting() :: now < x.due <= x.expires
    {
      Outside(wheel, active, ready);
      Kinds(wheel, ready);
      FlatItems(wheel.rows);
      hide Strung, Wheel.Valid, Items, Flat;
      ghost var items, waiting := Items(wheel.rows), wheel.Waiting();
      taken := wheel.TakeAllTimeout(now, timeout, []);
      assert [] + taken == taken;
      Front(waiting, taken, wheel.Waiting(), items);
    }

    // What is due is late and ready.
    method Gather(now: nat) returns (ghost taken: seq<Item>)
      requires Valid() && wheel.start <= now < wheel.start + 0x7FFF_FFFF
      modifies this`ready, active`head, active`tail, wheel, wheel.slots`head, wheel.slots`tail, timeout`head, timeout`tail, Members(ready)`next,
        Items(wheel.rows)`prev, Items(wheel.rows)`next, Items(wheel.rows)`link, Items(wheel.rows)`timedOut
      ensures Valid() && ready == old(ready) + taken && wheel.start == now && old(wheel.Waiting()) == taken + wheel.Waiting()
      ensures Members(taken) <= old(Items(wheel.rows)) && Items(wheel.rows) <= old(Items(wheel.rows))
      ensures (forall x <- taken :: x.timedOut) && forall x <- wheel.Waiting() :: now < x.expires
      ensures forall x <- old(ready) :: x.timedOut == old(x.timedOut)
    {
      Outside(wheel, active, ready);
      hide Strung, Wheel.Valid, Items, Flat;
      taken := Collect(now);
      MarkLate(taken);
      Merge(taken);
    }

    // Marks what was taken.
    method MarkLate(ghost late: seq<Item>)
      requires Sorted(late)
      modifies Members(late)`timedOut
      ensures Sorted(late) && forall x <- late :: x.timedOut
    {
      Outside(wheel, timeout, late);
      Apart(active, ready, timeout, late);
      Kinds(wheel, late);
      forall k | 0 <= k < |ready|
        ensures ready[k] !in late
      {
        assert ready[k] in ready;
      }
      hide Strung, Wheel.Valid;
      Mark(timeout, late);
    }

    // What was late is ready too.
    method Merge(ghost late: seq<Item>)
      requires Sorted(late)
      modifies this`ready, active`head, active`tail, timeout`head, timeout`tail, Members(late)`prev, Members(late)`link, Members(ready)`next
      ensures Valid() && ready == old(ready) + late
    {
      Outside(wheel, active, ready);
      Outside(wheel, timeout, late);
      assert Last(ready) <= set y <- ready;
      Kinds(wheel, late);
      Kinds(wheel, ready);
      hide Strung, Wheel.Valid;
      Join(active, timeout, ready, late);
      ready := ready + late;
    }

    // The first that is ready leaves its list.
    method Pop() returns (x: Item)
      requires Valid() && ready != []
      modifies this`ready, active`head, active`tail, Members(ready)`prev, Members(ready)`next, Members(ready)`link
      ensures Valid() && x == old(ready)[0] && ready == old(ready)[1..] && x.link == null
    {
      Outside(wheel, active, ready);
      Kinds(wheel, ready);
      forall k | 0 <= k < |ready|
        ensures ready[k] !in Items(wheel.rows)
      {
        assert ready[k] in ready;
      }
      assert active.head == ready[0];
      hide Strung, Wheel.Valid;
      x := active.head;
      PopHead(active, ready);
      ready := ready[1..];
    }

    // An item whose time is up only in the wheel goes back there; any other is processed.
    method Dispose(x: Item, now: nat) returns (processed: bool)
      requires Valid() && x.link == null && wheel.start == now
      modifies wheel`rows, wheel.slots`head, wheel.slots`tail, x`prev, x`next, x`link, x`due, x`timedOut, Items(wheel.rows)`next
      ensures Valid() && processed == !(old(x.timedOut) && now < x.expires)
      ensures if processed then x.link == null && x.timedOut == old(x.timedOut) && unchanged(wheel)
              else x in wheel.Waiting() && !x.timedOut
      ensures forall y <- old(wheel.Waiting()) :: y in wheel.Waiting()
      ensures forall y <- wheel.Waiting() :: y in old(wheel.Waiting()) || (y == x && now < x.expires)
      ensures Items(wheel.rows) <= old(Items(wheel.rows)) + {x}
    {
      if !(x.timedOut && now < x.expires) {
        return true;
      }
      Outside(wheel, active, ready);
      Kinds(wheel, ready);
      if x in ready {
        InList(active, ready, x);
      }
      forall k | 0 <= k < |ready|
        ensures ready[k] !in Items(wheel.rows) && ready[k] != x
      {
        assert ready[k] in ready;
      }
      hide Strung, Wheel.Valid;
      wheel.AddAgain(x, now);
      processed := false;
    }

    // The first that is ready is processed, or goes back into the wheel.
    method Next(now: nat) returns (x: Item, processed: bool)
      requires Valid() && ready != [] && wheel.start == now && forall x <- wheel.Waiting() :: now < x.expires
      modifies this`ready, active`head, active`tail, wheel`rows, wheel.slots`head, wheel.slots`tail,
        Members(ready)`prev, Members(ready)`next, Members(ready)`link, Members(ready[..1])`due, Members(ready[..1])`timedOut, Items(wheel.rows)`next
      ensures Valid() && x == old(ready)[0] && ready == old(ready)[1..] && wheel.start == now && x !in ready
      ensures processed == !(old(ready[0].timedOut) && now < x.expires)
      ensures if processed then x.link == null && x.timedOut == old(ready[0].timedOut) else x in wheel.Waiting()
      ensures (forall y <- old(wheel.Waiting()) :: y in wheel.Waiting()) && forall y <- wheel.Waiting() :: now < y.expires
      ensures Items(wheel.rows) <= old(Items(wheel.rows)) + {x}
    {
      hide Strung, Wheel.Valid, Items;
      x := Pop();
      Free(x);
      processed := Dispose(x, now);
    }

    // Runs through all that is ready.
    method Drain(now: nat) returns (processed: seq<Item>)
      requires Valid() && wheel.start == now && forall x <- wheel.Waiting() :: now < x.expires
      modifies this`ready, active`head, active`tail, wheel`rows, wheel.slots`head, wheel.slots`tail,
        Members(ready)`prev, Members(ready)`next, Members(ready)`link, Members(ready)`due, Members(ready)`timedOut, Items(wheel.rows)`next
      ensures Valid() && ready == [] && wheel.start == now && forall x <- wheel.Waiting() :: now < x.expires
      ensures processed == Sifted(old(ready), old(LateOf(ready)), now) && Over(processed, now)
      ensures forall x <- old(ready) :: x in processed || x in wheel.Waiting()
      ensures forall x <- old(wheel.Waiting()) :: x in wheel.Waiting()
    {
      hide Strung, Wheel.Valid, Wheel.Waiting, Items, Sifted, Over, Flat;
      processed := [];
      ghost var all, items, late, done: seq<Item> := ready, Items(wheel.rows), LateOf(ready), [];
      assert all == done + ready;
      SiftedNone(late, now);
      NoneOver(now);
      while active.head != null
        invariant Valid() && wheel.start == now && all == done + ready
        invariant Items(wheel.rows) <= items + Members(all) && forall x <- wheel.Waiting() :: now < x.expires
        invariant Over(processed, now)
        invariant processed == Sifted(done, late, now) && forall x <- ready :: x.timedOut <==> x in late
        invariant forall x <- done :: x in processed || x in wheel.Waiting()
        invariant forall x <- old(wheel.Waiting()) :: x in wheel.Waiting()
        decreases |ready|
      {
        Busy();
        AllFree(processed, now);
        var x, over := Next(now);
        SiftedNext(done, x, late, now);
        ConcatAssociative(done, [x], ready);
        if over {
          OverMore(processed, x, now);
          processed := processed + [x];
        }
        done := done + [x];
      }
      Idle();
      assert all == done;
    }

    lemma Busy()
      requires Valid() && active.head != null
      ensures ready != []
    {
    }

    lemma Idle()
      requires Valid() && active.head == null
      ensures ready == []
    {
    }

    lemma AllFree(s: seq<Item>, now: nat)
      requires Valid() && Over(s, now)
      ensures forall x <- s :: x !in ready && x !in Items(wheel.rows)
    {
      hide Strung, Wheel.Valid, Items;
      forall x <- s
        ensures x !in ready && x !in Items(wheel.rows)
      {
        Free(x);
      }
    }

    lemma Free(x: Item)
      requires Valid() && x.link == null
      ensures x !in ready && x !in Items(wheel.rows)
    {
      wheel.NoneWaiting(x);
      if x in ready {
        InList(active, ready, x);
      }
    }

    // One turn: what has an event is ready, what is due joins it, and all of it is processed,
    // but for what the wheel has given up before its time, which goes back. Nothing is lost,
    // and what is still in the wheel is to expire later.
    method Turn(events: seq<Item>, now: nat) returns (processed: seq<Item>, ghost all: seq<Item>, ghost taken: seq<Item>)
      requires Valid() && wheel.start <= now < wheel.start + 0x7FFF_FFFF
      modifies this`ready, active, timeout, wheel, wheel.slots, Members(ready), Members(events), Items(wheel.rows)
      ensures Valid() && ready == [] && wheel.start == now && forall x <- wheel.Waiting() :: now < x.expires
      ensures all == old(ready) + Activated(events, old(FreeOf(events))) + taken && Once(all) && Once(processed)
      ensures taken <= old(wheel.Waiting()) && forall x <- old(wheel.Waiting()) :: x in taken || x in wheel.Waiting()
      ensures processed == Sifted(all, old(LateOf(ready + events)) + Members(taken), now)
      ensures Over(processed, now)
      ensures forall x <- all :: x in processed || x in wheel.Waiting()
    {
      hide Strung, Wheel.Valid, Items, Sifted;
      ghost var late, first := LateOf(ready + events), ready + events;
      Arrive(events);
      ghost var arrived := ready;
      assert forall x <- arrived :: x in first;
      taken := Gather(now);
      all := ready;
      AllDistinct(active, ready);
      SiftedOnce(all, late + Members(taken), now);
      LateAre(arrived, taken, late, now);
      processed := Drain(now);
    }

    // The items with an event are ready.
    method Arrive(events: seq<Item>)
      requires Valid()
      modifies this`ready, active`head, active`tail, Members(events)`prev, Members(events)`next, Members(events)`link, Members(ready)`next
      ensures Valid() && ready == old(ready) + Activated(events, old(FreeOf(events)))
      ensures wheel.Waiting() == old(wheel.Waiting()) && forall x <- ready :: x in old(ready) || x in events
    {
      hide Strung, Wheel.Valid, Items;
      ghost var free := FreeOf(events);
      var i := 0;
      while i < |events|
        invariant 0 <= i <= |events| && Valid() && wheel.Waiting() == old(wheel.Waiting())
        invariant forall x <- ready :: x in old(ready) || x in events
        invariant ready + Activated(events[i..], free) == old(ready) + Activated(events, old(FreeOf(events)))
        invariant forall x <- events[i..] :: x.link == null <==> x in free
      {
        ghost var rest := events[i..];
        assert rest[1..] == events[i + 1..] && events[i] in events;
        ghost var more := Activated(rest[1..], free - {events[i]});
        ConcatAssociative(ready, [events[i]], more);
        assert events[i] !in free ==> free - {events[i]} == free;
        Activate(events[i]);
        free := free - {events[i]};
        i := i + 1;
      }
      assert events[i..] == [] && ready + [] == ready;
    }
  }
}
