// Doubly linked lists that run through their items: each item names the list it is in.

module TimerLists {
  class Item {
    var prev: Item?
    var next: Item?
    var link: Link?
    const expires: nat
    var timedOut: bool
    // The tick at which the wheel gives the item up.
    ghost var due: nat

    constructor (expires: nat)
      ensures link == null && this.expires == expires && !timedOut
    {
      prev, next, link := null, null, null;
      this.expires, timedOut, due := expires, false, 0;
    }
  }

  class Link {
    var head: Item?
    var tail: Item?

    constructor ()
      ensures Strung(this, [])
    {
      head, tail := null, null;
    }
  }

  // The list `l` runs through the items `s`.
  ghost predicate Strung(l: Link, s: seq<Item>)
    reads l, s
  {
    && (if s == [] then l.head == null && l.tail == null else l.head == s[0] && l.tail == s[|s| - 1])
    && forall i | 0 <= i < |s| :: Hung(l, s, i)
  }

  ghost predicate Hung(l: Link, s: seq<Item>, i: nat)
    requires i < |s|
    reads s
  {
    && s[i].link == l
    && s[i].prev == (if i == 0 then null else s[i - 1])
    && s[i].next == (if i + 1 == |s| then null else s[i + 1])
  }

  // No item is twice in a list.
  lemma {:induction false} Distinct(l: Link, s: seq<Item>, i: nat, j: nat)
    requires Strung(l, s) && i < j < |s|
    ensures s[i] != s[j]
    decreases i
  {
    assert Hung(l, s, i) && Hung(l, s, j);
    if i > 0 {
      Distinct(l, s, i - 1, j - 1);
    }
  }

  lemma AllDistinct(l: Link, s: seq<Item>)
    requires Strung(l, s)
    ensures forall i, j | 0 <= i < j < |s| :: s[i] != s[j]
  {
    forall i, j | 0 <= i < j < |s|
      ensures s[i] != s[j]
    {
      Distinct(l, s, i, j);
    }
  }

  lemma InList(l: Link, s: seq<Item>, x: Item)
    requires Strung(l, s) && x in s
    ensures x.link == l
  {
    var i :| 0 <= i < |s| && s[i] == x;
    assert Hung(l, s, i);
  }

  // And none is in two.
  lemma Apart(l: Link, s: seq<Item>, l': Link, s': seq<Item>)
    requires Strung(l, s) && Strung(l', s') && l != l'
    ensures forall x <- s :: x !in s'
  {
    forall x <- s
      ensures x !in s'
    {
      InList(l, s, x);
      if x in s' {
        InList(l', s', x);
      }
    }
  }

  datatype Place = Place(link: Link?, prev: Item?, next: Item?)

  ghost function PlaceIn(l: Link, s: seq<Item>, i: nat): Place
    requires i < |s|
  {
    Place(l, if i == 0 then null else s[i - 1], if i + 1 == |s| then null else s[i + 1])
  }

  // How the items hang, as it is.
  ghost function Look(s: seq<Item>): (p: seq<Place>)
    reads s
    ensures |p| == |s| && forall i | 0 <= i < |s| :: p[i] == Place(s[i].link, s[i].prev, s[i].next)
  {
    seq(|s|, i requires 0 <= i < |s| reads s => Place(s[i].link, s[i].prev, s[i].next))
  }

  ghost predicate Straight(l: Link, s: seq<Item>, p: seq<Place>)
    reads l
  {
    && |p| == |s| && (forall i {:trigger p[i]} | 0 <= i < |p| :: p[i] == PlaceIn(l, s, i))
    && (if s == [] then l.head == null && l.tail == null else l.head == s[0] && l.tail == s[|s| - 1])
  }

  lemma StrungLook(l: Link, s: seq<Item>)
    requires Strung(l, s)
    ensures Straight(l, s, Look(s))
  {
    forall i | 0 <= i < |s|
      ensures Look(s)[i] == PlaceIn(l, s, i)
    {
      assert Hung(l, s, i);
    }
  }

  lemma LookStrung(l: Link, s: seq<Item>)
    requires Straight(l, s, Look(s))
    ensures Strung(l, s)
  {
    forall i | 0 <= i < |s|
      ensures Hung(l, s, i)
    {
      assert Look(s)[i] == PlaceIn(l, s, i);
    }
  }

  // How the items hang in the list, one by one.
  lemma Places(l: Link, s: seq<Item>) returns (p: seq<Place>)
    requires Strung(l, s)
    ensures |p| == |s|
    ensures forall i {:trigger p[i]} | 0 <= i < |p| :: p[i] == Place(s[i].link, s[i].prev, s[i].next)
    ensures forall i {:trigger p[i]} | 0 <= i < |p| :: p[i] == PlaceIn(l, s, i)
    ensures forall i, j | 0 <= i < j < |s| :: s[i] != s[j]
  {
    AllDistinct(l, s);
    p := seq(|s|, i requires 0 <= i < |s| => PlaceIn(l, s, i));
    forall i {:trigger p[i]} | 0 <= i < |p|
      ensures p[i] == Place(s[i].link, s[i].prev, s[i].next)
    {
      assert Hung(l, s, i);
    }
  }

  ghost function Members(s: seq<Item>): set<Item> {
    set x <- s
  }

  ghost function Last(s: seq<Item>): set<Item> {
    if s == [] then {} else {s[|s| - 1]}
  }

  // An item that is in no list is put last; one that is in a list stays where it is.
  method AddTail(l: Link, x: Item, ghost s: seq<Item>)
    requires Strung(l, s)
    modifies l`head, l`tail, x`prev, x`next, x`link, Last(s)`next
    ensures if old(x.link) == null then Strung(l, s + [x]) else Strung(l, s) && unchanged(l) && unchanged(x) && unchanged(s)
  {
    if x.link != null {
      return;
    }
    if x in s {
      InList(l, s, x);
    }
    ghost var t := s + [x];
    ghost var p := Places(l, s);
    if l.tail != null {
      l.tail.next := x;
      x.next, x.prev := null, l.tail;
      l.tail := x;
    } else {
      l.head, l.tail := x, x;
      x.next, x.prev := null, null;
    }
    x.link := l;
    forall i | 0 <= i < |t|
      ensures Hung(l, t, i)
    {
      if i < |s| {
        assert p[i].link == l && s[i] in s;
      }
    }
  }

  method PopHead(l: Link, ghost s: seq<Item>)
    requires Strung(l, s)
    modifies l`head, l`tail, Members(s)`prev, Members(s)`next, Members(s)`link
    ensures s == [] ==> unchanged(l)
    ensures s != [] ==> Strung(l, s[1..]) && s[0].link == null && s[0].prev == null && s[0].next == null
  {
    if l.head == null {
      return;
    }
    ghost var t := s[1..];
    ghost var p := Places(l, s);
    var x := l.head;
    assert p[0].next == x.next && (|s| > 1 ==> s[1] in s);
    if l.head == l.tail {
      l.head, l.tail := null, null;
    } else {
      l.head := l.head.next;
    }
    x.prev, x.next, x.link := null, null, null;
    if l.head != null {
      l.head.prev := null;
    }
    forall i | 0 <= i < |t|
      ensures Hung(l, t, i)
    {
      assert p[i + 1].link == l && s[i + 1] in s;
    }
  }

  // Takes an item out of the list it is in.
  method RemoveFromLink(x: Item, ghost s: seq<Item>, ghost k: nat)
    requires x.link != null ==> Strung(x.link, s) && k < |s| && s[k] == x
    modifies x.link, x`prev, x`next, x`link, s`prev, s`next, s`link
    ensures x.link == null
    ensures old(x.link) != null ==> Strung(old(x.link), s[..k] + s[k + 1..]) && x.prev == null && x.next == null
  {
    var l := x.link;
    if l == null {
      return;
    }
    ghost var t := s[..k] + s[k + 1..];
    ghost var p := Places(l, s);
    assert x == l.head <==> k == 0;
    assert x == l.tail <==> k + 1 == |s|;
    assert p[k].link == l;
    assert k > 0 ==> s[k - 1] in s;
    assert k + 1 < |s| ==> s[k + 1] in s;
    if x == l.head {
      l.head := x.next;
      if l.head != null {
        l.head.prev := null;
      }
    } else if x.prev != null {
      x.prev.next := x.next;
    }
    if x == l.tail {
      l.tail := x.prev;
      if l.tail != null {
        l.tail.next := null;
      }
    } else {
      x.next.prev := x.prev;
    }
    x.prev, x.next := null, null;
    x.link := null;
    forall i | 0 <= i < |t|
      ensures Hung(l, t, i)
    {
      assert p[if i < k then i else i + 1].link == l && t[i] in s;
    }
  }

  // Every item of the list `o` names the list `l`; how they hang is left as it was.
  method Rename(l: Link, o: Link, ghost t: seq<Item>, ghost q: seq<Place>)
    requires Strung(o, t) && |q| == |t| && l != o
    requires forall i {:trigger q[i]} | 0 <= i < |q| :: q[i] == Place(t[i].link, t[i].prev, t[i].next) && q[i] == PlaceIn(o, t, i)
    modifies Members(t)`link
    ensures forall i | 0 <= i < |t| :: t[i].link == l
  {
    ghost var p := Places(o, t);
    var x := o.head;
    ghost var k := 0;
    while x != null
      invariant 0 <= k <= |t| && x == (if k == |t| then null else t[k])
      invariant forall i | 0 <= i < k :: t[i].link == l
      decreases |t| - k
    {
      assert q[k].link == o && t[k] in t;
      x.link := l;
      x := x.next;
      k := k + 1;
    }
  }

  // Empties the list `o` behind the list `l`.
  method Join(l: Link, o: Link, ghost s: seq<Item>, ghost t: seq<Item>)
    requires Strung(l, s) && Strung(o, t) && l != o
    modifies l`head, l`tail, o`head, o`tail, Members(t)`prev, Members(t)`link, Last(s)`next
    ensures Strung(l, s + t) && Strung(o, [])
  {
    if o.head == null {
      assert s + t == s;
      return;
    }
    Apart(o, t, l, s);
    ghost var p := Places(l, s);
    ghost var q := Places(o, t);
    Rename(l, o, t, q);
    var x := o.head;
    if l.tail != null {
      l.tail.next := x;
      x.prev := l.tail;
      l.tail := o.tail;
    } else {
      l.head, l.tail := o.head, o.tail;
    }
    o.head, o.tail := null, null;
    ghost var u := s + t;
    forall i | 0 <= i < |u|
      ensures Hung(l, u, i)
    {
      if i < |s| {
        assert p[i].link == l && s[i] in s;
      } else {
        assert q[i - |s|].link == o && u[i] in t;
      }
    }
  }
}
