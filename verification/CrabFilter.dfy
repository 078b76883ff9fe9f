// Starring out the words of a dictionary: at each place the longest word that starts there,
// and then on from its end.

module CrabFilter {
  import opened Words
  import opened CrabTable
  import opened CrabWords

  const STAR: U32 := 42

  datatype Cut = Cut(start: nat, length: nat)

  predicate Occurs(words: set<Text>, text: Text, i: int, n: int) {
    i >= 0 && n > 0 && i + n <= |text| && text[i..i + n] in words
  }

  // The longest word at `i`, or none.
  ghost predicate Longest(words: set<Text>, text: Text, i: nat, n: nat) {
    && (n > 0 ==> Occurs(words, text, i, n))
    && forall m | Occurs(words, text, i, m) :: m <= n
  }

  predicate Covers(c: Cut, i: int) {
    c.start <= i < c.start + c.length
  }

  ghost predicate Covered(cuts: seq<Cut>, i: int) {
    exists k :: 0 <= k < |cuts| && Covers(cuts[k], i)
  }

  ghost predicate CutsIn(words: set<Text>, text: Text, cuts: seq<Cut>) {
    && (forall k | 0 <= k < |cuts| :: cuts[k].length > 0 && Longest(words, text, cuts[k].start, cuts[k].length))
    && (forall j, k | 0 <= j < k < |cuts| :: cuts[j].start + cuts[j].length <= cuts[k].start)
  }

  // Cuts in order that do not overlap, each the longest word where it starts, and no word
  // starts anywhere else.
  ghost predicate LeftmostLongest(words: set<Text>, text: Text, cuts: seq<Cut>) {
    && CutsIn(words, text, cuts)
    && forall i, n | Occurs(words, text, i, n) :: Covered(cuts, i)
  }

  ghost predicate Starred(text: Text, cuts: seq<Cut>, result: Text) {
    && |result| == |text|
    && forall i | 0 <= i < |text| :: result[i] == if Covered(cuts, i) then STAR else text[i]
  }

  lemma CutAt(words: set<Text>, text: Text, a: seq<Cut>, k: nat, j: nat)
    requires CutsIn(words, text, a) && j <= k < |a|
    ensures a[k].length > 0 && Occurs(words, text, a[k].start, a[k].length)
    ensures Longest(words, text, a[k].start, a[k].length)
    ensures j < k ==> a[j].start + a[j].length <= a[k].start
  {
  }

  lemma SameLongest(words: set<Text>, text: Text, i: nat, m: nat, n: nat)
    requires Longest(words, text, i, m) && Longest(words, text, i, n)
    ensures m == n
  {
    hide Occurs;
  }

  // The next cut of `b` starts no later than that of `a`.
  lemma NextCut(words: set<Text>, text: Text, a: seq<Cut>, b: seq<Cut>, k: nat)
    requires LeftmostLongest(words, text, a) && LeftmostLongest(words, text, b)
    requires k < |a| && k <= |b| && a[..k] == b[..k]
    ensures k < |b| && b[k].start <= a[k].start
  {
    hide CutsIn, Longest, Occurs;
    var i := a[k].start;
    CutAt(words, text, a, k, k);
    assert Covered(b, i);
    var j :| 0 <= j < |b| && Covers(b[j], i);
    if j < k {
      assert a[j] == a[..k][j] == b[..k][j] == b[j];
      CutAt(words, text, a, k, j);
    } else {
      CutAt(words, text, b, j, k);
    }
  }

  // There is only one such list of cuts.
  lemma {:induction false} SameCuts(words: set<Text>, text: Text, a: seq<Cut>, b: seq<Cut>, n: nat)
    requires LeftmostLongest(words, text, a) && LeftmostLongest(words, text, b) && n <= |a|
    ensures n <= |b| && a[..n] == b[..n]
  {
    hide CutsIn, Longest, Occurs;
    if n > 0 {
      var k := n - 1;
      SameCuts(words, text, a, b, k);
      NextCut(words, text, a, b, k);
      NextCut(words, text, b, a, k);
      CutAt(words, text, a, k, k);
      CutAt(words, text, b, k, k);
      SameLongest(words, text, a[k].start, a[k].length, b[k].length);
      assert a[..n] == a[..k] + [a[k]] && b[..n] == b[..k] + [b[k]];
    }
  }

  lemma UniqueCuts(words: set<Text>, text: Text, a: seq<Cut>, b: seq<Cut>)
    requires LeftmostLongest(words, text, a) && LeftmostLongest(words, text, b)
    ensures a == b
  {
    SameCuts(words, text, a, b, |a|);
    SameCuts(words, text, b, a, |b|);
    assert a[..|a|] == a && b[..|b|] == b;
  }

  // Something is found if and only if some word occurs somewhere.
  lemma FoundIfAny(words: set<Text>, text: Text, cuts: seq<Cut>)
    requires LeftmostLongest(words, text, cuts)
    ensures cuts != [] <==> exists i, n :: Occurs(words, text, i, n)
  {
    if cuts != [] {
      assert Occurs(words, text, cuts[0].start, cuts[0].length);
    }
  }

  // ---- the walk down the tree ----

  lemma LongerGoesOn(tree: Tree, at: map<Text, Table>, words: set<Text>, text: Text, i: nat, j: nat, m: nat)
    requires Shape(tree, at, words) && i < j && Occurs(words, text, i, m) && m > j - i
    ensures text[i..j] in at
  {
    hide Shape;
    AtTree(tree, at, words);
    var w := text[i..i + m];
    PrefixGoesOn(tree, at, words, w, j - i);
    assert w[..j - i] == text[i..j];
  }

  lemma NoneLonger(tree: Tree, at: map<Text, Table>, words: set<Text>, text: Text, i: nat, j: nat)
    requires Shape(tree, at, words) && i < j <= |text| && text[i..j] !in at
    ensures forall m | Occurs(words, text, i, m) :: m <= j - i
  {
    hide Shape;
    forall m | Occurs(words, text, i, m)
      ensures m <= j - i
    {
      if m > j - i {
        LongerGoesOn(tree, at, words, text, i, j, m);
      }
    }
  }

  lemma AtTree(tree: Tree, at: map<Text, Table>, words: set<Text>)
    requires Shape(tree, at, words)
    ensures tree.Keys == at.Keys
  {
  }

  // What the entry for the next letter says, and what it means if there is none.
  lemma NextLetter(tree: Tree, at: map<Text, Table>, words: set<Text>, p: Text, k: U32)
    requires Shape(tree, at, words) && p in tree
    ensures k in tree[p] ==> CrabWords.Leads(tree[p][k], p + [k], at, words)
    ensures k !in tree[p] ==> p + [k] !in words && p + [k] !in at
  {
    assert Level(tree, at, words, p);
    assert (p + [k])[..|p|] == p;
    assert k !in tree[p] ==> !Held(tree, p + [k]);
  }

  lemma LetterAt(d: Dictionary, p: Text, t: Table, k: U32, n: int)
    requires d.Valid() && p in d.at && d.at[p] == t && -1 <= n < t.node.Length
    requires n < 0 ==> k !in Entries(t.node[..])
    requires n >= 0 ==> Used(t.node[..], n) && t.node[n].key == k
    ensures p + [k] in d.words <==> n >= 0 && t.node[n].flag == Terminal
    ensures p + [k] in d.at <==> n >= 0 && t.node[n].value != null
    ensures n >= 0 && t.node[n].value != null ==> d.at[p + [k]] == t.node[n].value
  {
    hide Shape, Entries, Table.Valid;
    NextLetter(d.Snapshot(), d.at, d.words, p, k);
    if n >= 0 {
      EntryIs(t, n);
    }
  }

  method Look(d: Dictionary, ghost p: Text, t: Table, k: U32) returns (n: int)
    requires d.Valid() && p in d.at && d.at[p] == t
    ensures d.Valid() && -1 <= n < t.node.Length
    ensures p + [k] in d.words <==> n >= 0 && t.node[n].flag == Terminal
    ensures p + [k] in d.at <==> n >= 0 && t.node[n].value != null
    ensures n >= 0 && t.node[n].value != null ==> d.at[p + [k]] == t.node[n].value
  {
    hide Shape, Entries, Table.Valid, Leads;
    n := t.Get(k);
    assert forall p | p in d.at :: unchanged(d.at[p].node);
    assert d.Snapshot() == old(d.Snapshot());
    LetterAt(d, p, t, k, n);
  }

  // The longest word at `i`, where the text is still as it was.
  method LongestAt(d: Dictionary, text: array<U32>, i: nat, ghost whole: Text) returns (step: nat)
    requires d.Valid() && i < text.Length == |whole| && text[i..] == whole[i..]
    ensures Longest(d.words, whole, i, step)
  {
    hide Shape, Entries, Table.Valid, Dictionary.Valid, Dictionary.Separate, Chained, Longest;
    var t := d.root;
    d.RootIn();
    step := 0;
    var j := i;
    assert whole[i..i] == [];
    while j < text.Length
      invariant i <= j <= text.Length && d.Valid() && whole[i..j] in d.at && d.at[whole[i..j]] == t
      invariant step <= j - i && (step > 0 ==> Occurs(d.words, whole, i, step))
      invariant forall m | Occurs(d.words, whole, i, m) && m <= j - i :: m <= step
    {
      var n := Look(d, whole[i..j], t, text[j]);
      assert text[j] == text[i..][j - i] == whole[j];
      assert whole[i..j + 1] == whole[i..j] + [text[j]];
      if n >= 0 && t.node[n].flag == Terminal {
        step := j - i + 1;
      }
      OneMore(d.words, whole, i, j);
      if !(n >= 0 && t.node[n].value != null) {
        NoneLongerIn(d, whole, i, j + 1);
        LongestIs(d.words, whole, i, step);
        return;
      }
      t := t.node[n].value;
      j := j + 1;
    }
    LongestIs(d.words, whole, i, step);
  }

  lemma NoneLongerIn(d: Dictionary, text: Text, i: nat, j: nat)
    requires d.Valid() && i < j <= |text| && text[i..j] !in d.at
    ensures forall m | Occurs(d.words, text, i, m) :: m <= j - i
  {
    NoneLonger(d.Snapshot(), d.at, d.words, text, i, j);
  }

  lemma OneMore(words: set<Text>, text: Text, i: nat, j: nat)
    requires i <= j < |text|
    ensures Occurs(words, text, i, j - i + 1) <==> text[i..j + 1] in words
  {
    assert i + (j - i + 1) == j + 1;
  }

  lemma LongestIs(words: set<Text>, text: Text, i: nat, n: nat)
    requires n > 0 ==> Occurs(words, text, i, n)
    requires forall m | Occurs(words, text, i, m) :: m <= n
    ensures Longest(words, text, i, n)
  {
  }

  // ---- the filter ----

  // The cuts made up to `i`.
  ghost predicate Progress(words: set<Text>, text: Text, cuts: seq<Cut>, i: nat) {
    && CutsIn(words, text, cuts)
    && (forall k | 0 <= k < |cuts| :: cuts[k].start + cuts[k].length <= i)
    && forall q, n | Occurs(words, text, q, n) && q < i :: Covered(cuts, q)
  }

  lemma OneCut(words: set<Text>, text: Text, cuts: seq<Cut>, i: nat, step: nat)
    requires Progress(words, text, cuts, i) && step > 0 && Longest(words, text, i, step)
    ensures Progress(words, text, cuts + [Cut(i, step)], i + step)
    ensures forall q :: Covered(cuts + [Cut(i, step)], q) <==> Covered(cuts, q) || i <= q < i + step
  {
    hide Longest, Occurs;
    var more := cuts + [Cut(i, step)];
    forall q
      ensures Covered(more, q) <==> Covered(cuts, q) || i <= q < i + step
    {
      CoveredMore(cuts, Cut(i, step), q);
    }
  }

  lemma CoveredMore(cuts: seq<Cut>, c: Cut, q: int)
    ensures Covered(cuts + [c], q) <==> Covered(cuts, q) || Covers(c, q)
  {
    var more := cuts + [c];
    if Covered(cuts, q) {
      var k :| 0 <= k < |cuts| && Covers(cuts[k], q);
      assert Covers(more[k], q);
    }
    if Covers(c, q) {
      assert Covers(more[|cuts|], q);
    }
    if Covered(more, q) {
      var k :| 0 <= k < |more| && Covers(more[k], q);
      assert k < |cuts| ==> Covers(cuts[k], q);
    }
  }

  lemma NoCut(words: set<Text>, text: Text, cuts: seq<Cut>, i: nat)
    requires Progress(words, text, cuts, i) && Longest(words, text, i, 0)
    ensures Progress(words, text, cuts, i + 1) && !Covered(cuts, i)
  {
  }

  lemma AllCuts(words: set<Text>, text: Text, cuts: seq<Cut>)
    requires Progress(words, text, cuts, |text|)
    ensures LeftmostLongest(words, text, cuts)
  {
  }

  // Stars out every leftmost longest word of the text, in place.
  method Filter(d: Dictionary, text: array<U32>) returns (found: bool, ghost cuts: seq<Cut>)
    requires d.Valid()
    modifies text
    ensures LeftmostLongest(d.words, old(text[..]), cuts)
    ensures Starred(old(text[..]), cuts, text[..])
    ensures found <==> cuts != []
  {
    hide Dictionary.Valid, Longest, Progress, Covered, LeftmostLongest;
    ghost var whole := text[..];
    found, cuts := false, [];
    NothingYet(d.words, whole);
    Elsewhere(d, text);
    var i := 0;
    while i < text.Length
      invariant 0 <= i <= text.Length && d.Valid() && text !in d.Owned() && text[i..] == whole[i..]
      invariant Progress(d.words, whole, cuts, i) && (found <==> cuts != [])
      invariant forall q | 0 <= q < i :: text[q] == if Covered(cuts, q) then STAR else whole[q]
    {
      var step := LongestAt(d, text, i, whole);
      if step > 0 {
        OneCut(d.words, whole, cuts, i, step);
        Within(d.words, whole, i, step);
        ghost var before := text[..];
        var j := 0;
        while j < step
          invariant 0 <= j <= step && d.Valid() && text !in d.Owned()
          invariant forall q | 0 <= q < text.Length :: text[q] == if i <= q < i + j then STAR else before[q]
        {
          text[i + j] := STAR;
          j := j + 1;
        }
        found := true;
        cuts := cuts + [Cut(i, step)];
        i := i + step;
      } else {
        NoCut(d.words, whole, cuts, i);
        i := i + 1;
      }
    }
    AllCuts(d.words, whole, cuts);
  }

  // The text is no part of the dictionary.
  lemma Elsewhere(d: Dictionary, text: array<U32>)
    requires d.Valid()
    ensures text !in d.Owned()
  {
    assert forall p | p in d.at :: d.at[p].node as object != text as object;
  }

  lemma NothingYet(words: set<Text>, text: Text)
    ensures Progress(words, text, [], 0)
  {
  }

  lemma Within(words: set<Text>, text: Text, i: nat, n: nat)
    requires Longest(words, text, i, n) && n > 0
    ensures i + n <= |text|
  {
  }

  // ---- the dictionary in use ----

  datatype Item = Word(runes: seq<Rune>) | NotAWord

  ghost predicate AllLegal(items: seq<Item>) {
    forall i | 0 <= i < |items| :: items[i].Word? && Legal(items[i].runes)
  }

  ghost function WordsOf(items: seq<Item>): set<Text> {
    set i | 0 <= i < |items| && items[i].Word? && items[i].runes != [] :: Codes(items[i].runes)
  }

  class Crab {
    var dict: Dictionary?

    constructor ()
      ensures dict == null
    {
      dict := null;
    }

    // A dictionary of all the words takes the place of the one in use, unless one is illegal.
    method Open(items: seq<Item>) returns (ok: bool)
      modifies this
      ensures ok <==> AllLegal(items)
      ensures !ok ==> dict == old(dict)
      ensures ok ==> dict != null && fresh(dict) && dict.Valid() && dict.words == WordsOf(items)
    {
      hide Dictionary.Valid, Codes, Legal;
      var d := new Dictionary();
      var i := 0;
      while i < |items|
        invariant 0 <= i <= |items| && d.Valid() && fresh(d.Owned()) && dict == old(dict)
        invariant AllLegal(items[..i]) && d.words == WordsOf(items[..i])
      {
        assert items[..i + 1] == items[..i] + [items[i]];
        WordsMore(items[..i], items[i]);
        if items[i].NotAWord? {
          return false;
        }
        ok := d.Insert(items[i].runes);
        if !ok {
          return false;
        }
        i := i + 1;
      }
      assert items[..i] == items;
      dict := d;
      ok := true;
    }

    method Apply(text: array<U32>) returns (open: bool, found: bool, ghost cuts: seq<Cut>)
      requires dict != null ==> dict.Valid()
      modifies text
      ensures open <==> dict != null
      ensures !open ==> text[..] == old(text[..]) && !found
      ensures open ==> LeftmostLongest(dict.words, old(text[..]), cuts) && Starred(old(text[..]), cuts, text[..])
      ensures open ==> (found <==> exists i, n :: Occurs(dict.words, old(text[..]), i, n))
    {
      open, found, cuts := dict != null, false, [];
      if open {
        found, cuts := Filter(dict, text);
        FoundIfAny(dict.words, old(text[..]), cuts);
      }
    }
  }

  lemma WordsMore(items: seq<Item>, item: Item)
    ensures WordsOf(items + [item]) == WordsOf(items) + if item.Word? && item.runes != [] then {Codes(item.runes)} else {}
    ensures AllLegal(items + [item]) <==> AllLegal(items) && item.Word? && Legal(item.runes)
  {
    hide Codes, Legal;
    var more := items + [item];
    assert more[|items|] == item;
    forall i | 0 <= i < |items|
      ensures more[i] == items[i]
    {
    }
  }
}
