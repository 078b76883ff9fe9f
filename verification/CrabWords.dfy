// A set of words as a tree of hash tables, one table for every prefix that goes on, and the
// filter that stars out the words it finds in a text.

module CrabWords {
  import opened Words
  import opened CrabTable

  type Text = seq<U32>

  // ---- the tree ----

  type Tree = map<Text, map<U32, Entry>>

  ghost function Put(m: map<U32, Entry>, k: U32, e: Entry): map<U32, Entry> {
    m[k := e]
  }

  // The entry for the last letter of `w`, at its prefix.
  ghost predicate Held(tree: Tree, w: Text) {
    w != [] && w[..|w| - 1] in tree && w[|w| - 1] in tree[w[..|w| - 1]]
  }

  ghost predicate Leads(e: Entry, q: Text, at: map<Text, Table>, words: set<Text>) {
    && (e.flag == Terminal <==> q in words)
    && (if e.value == null then q !in at else q in at && at[q] == e.value)
  }

  ghost predicate Level(tree: Tree, at: map<Text, Table>, words: set<Text>, p: Text)
    requires p in tree
  {
    forall k | k in tree[p] :: Leads(tree[p][k], p + [k], at, words)
  }

  // Each entry says whether a word ends there and whether longer ones go on, and there is an
  // entry for every word and every prefix that goes on.
  ghost predicate Shape(tree: Tree, at: map<Text, Table>, words: set<Text>) {
    && tree.Keys == at.Keys && [] in at
    && (forall p {:trigger Level(tree, at, words, p)} | p in tree :: Level(tree, at, words, p))
    && (forall w {:trigger Held(tree, w)} | w in words || (w in tree && w != []) :: Held(tree, w))
  }

  lemma NewLetter(tree: Tree, at: map<Text, Table>, words: set<Text>, p: Text, k: U32)
    requires Shape(tree, at, words) && p in tree && k !in tree[p]
    ensures Shape(tree[p := Put(tree[p], k, Entry(Inner, null))], at, words)
  {
    var tree' := tree[p := Put(tree[p], k, Entry(Inner, null))];
    assert (p + [k])[..|p|] == p;
    assert !Held(tree, p + [k]);
    forall q | q in tree'
      ensures Level(tree', at, words, q)
    {
      assert Level(tree, at, words, q);
    }
    forall w | w in words || (w in tree' && w != [])
      ensures Held(tree', w)
    {
      assert Held(tree, w);
    }
  }

  lemma NewBranch(tree: Tree, at: map<Text, Table>, words: set<Text>, p: Text, k: U32, c: Table)
    requires Shape(tree, at, words) && p in tree && k in tree[p] && tree[p][k].value == null
    ensures p + [k] !in at
    ensures Shape(tree[p := Put(tree[p], k, tree[p][k].(value := c))][p + [k] := map[]], at[p + [k] := c], words)
  {
    var pk := p + [k];
    var tree', at' := tree[p := Put(tree[p], k, tree[p][k].(value := c))][pk := map[]], at[pk := c];
    assert Level(tree, at, words, p);
    assert Leads(tree[p][k], pk, at, words);
    assert pk != p;
    forall q | q in tree'
      ensures Level(tree', at', words, q)
    {
      if q != pk {
        assert Level(tree, at, words, q);
        forall l | l in tree'[q]
          ensures Leads(tree'[q][l], q + [l], at', words)
        {
          assert Leads(tree[q][l], q + [l], at, words);
          if q + [l] == pk {
            assert (q + [l])[..|q|] == q && pk[..|p|] == p;
          }
        }
      }
    }
    forall w | w in words || (w in tree' && w != [])
      ensures Held(tree', w)
    {
      if w == pk {
        assert pk[..|pk| - 1] == p;
      } else {
        assert Held(tree, w) && pk !in tree;
      }
    }
  }

  lemma NewWord(tree: Tree, at: map<Text, Table>, words: set<Text>, p: Text, k: U32)
    requires Shape(tree, at, words) && p in tree && k in tree[p]
    ensures Shape(tree[p := Put(tree[p], k, tree[p][k].(flag := Terminal))], at, words + {p + [k]})
  {
    var pk := p + [k];
    var tree', words' := tree[p := Put(tree[p], k, tree[p][k].(flag := Terminal))], words + {pk};
    forall q | q in tree'
      ensures Level(tree', at, words', q)
    {
      assert Level(tree, at, words, q);
      forall l | l in tree'[q]
        ensures Leads(tree'[q][l], q + [l], at, words')
      {
        assert Leads(tree[q][l], q + [l], at, words);
        if q + [l] == pk {
          assert (q + [l])[..|q|] == q && pk[..|p|] == p;
          assert (q + [l])[|q|] == l && pk[|p|] == k;
        }
      }
    }
    forall w | w in words' || (w in tree' && w != [])
      ensures Held(tree', w)
    {
      if w == pk {
        assert pk[..|pk| - 1] == p;
      } else {
        assert Held(tree, w);
      }
    }
  }

  // Every prefix of a word, and of a prefix that goes on, goes on.
  lemma {:induction false} PrefixGoesOn(tree: Tree, at: map<Text, Table>, words: set<Text>, w: Text, m: nat)
    requires Shape(tree, at, words) && (w in words || w in tree) && m <= |w| && (m == |w| ==> w in tree)
    ensures w[..m] in tree
    decreases |w|
  {
    if m < |w| {
      assert Held(tree, w);
      var v := w[..|w| - 1];
      PrefixGoesOn(tree, at, words, v, m);
      assert v[..m] == w[..m];
    } else {
      assert w[..m] == w;
    }
  }

  class Dictionary {
    const root: Table
    ghost var at: map<Text, Table>
    ghost var words: set<Text>

    ghost function Tables(): set<object>
      reads this`at
    {
      set p | p in at :: at[p]
    }

    ghost function Arrays(): set<object>
      reads this`at, Tables()
    {
      set p | p in at :: at[p].node
    }

    ghost function Owned(): set<object>
      reads this`at, Tables()
    {
      Tables() + Arrays() + {this}
    }

    ghost predicate Separate()
      reads this`at, Tables()
    {
      forall p, q | p in at && q in at && p != q :: at[p] != at[q] && at[p].node != at[q].node
    }

    ghost predicate TablesValid()
      reads this`at, Tables(), Arrays()
    {
      forall p | p in at :: at[p].Valid()
    }

    ghost function Snapshot(): Tree
      reads this`at, Tables(), Arrays()
    {
      map p | p in at :: Entries(at[p].node[..])
    }

    ghost predicate Valid()
      reads this, Tables(), Arrays()
    {
      Separate() && TablesValid() && Shape(Snapshot(), at, words) && at[[]] == root
    }

    constructor ()
      ensures Valid() && words == {} && fresh(Owned())
    {
      hide Shape, Entries, Table.Valid;
      root := new Table();
      at := map[[] := root];
      words := {};
      new;
      EmptyTree(Snapshot(), at);
    }

    // One table has changed.
    twostate lemma Stepped(p: Text)
      requires p in at && at == old(at) && old(Separate()) && old(TablesValid())
      requires at[p].Valid() && (at[p].node == old(at[p].node) || fresh(at[p].node))
      requires forall q | q in at && q != p :: unchanged(at[q]) && unchanged(at[q].node)
      ensures Separate() && TablesValid() && fresh(Owned() - old(Owned()))
      ensures Snapshot() == old(Snapshot())[p := Entries(at[p].node[..])]
    {
      hide Entries, Table.Valid;
      forall q | q in at && q != p
        ensures Snapshot()[q] == old(Snapshot())[q]
      {
        assert at[q].node[..] == old(at[q].node[..]);
      }
    }

    // A letter that leads nowhere yet is given a table of its own.
    method Sprout(ghost p: Text, t: Table, n: nat) returns (c: Table)
      requires Valid() && p in at && at[p] == t && n < t.node.Length && Used(t.node[..], n) && t.node[n].value == null
      modifies Owned()
      ensures Valid() && words == old(words) && fresh(Owned() - old(Owned()))
      ensures at == old(at)[p + [old(t.node[n].key)] := c]
    {
      hide Shape, Entries, Table.Valid, Separate, TablesValid, Snapshot;
      ghost var k, tree := t.node[n].key, Snapshot();
      SnapshotAt(p);
      OwnedParts(p);
      c := new Table();
      NotOwned(c);
      Retag(p, t, n, t.node[n].flag, c);
      NewBranch(tree, at, words, p, k, c);
      Adopt(p + [k], c);
    }

    lemma SnapshotAt(p: Text)
      requires p in at
      ensures p in Snapshot() && Snapshot()[p] == Entries(at[p].node[..])
    {
    }

    lemma OwnedParts(p: Text)
      requires p in at
      ensures at[p] in Owned() && at[p].node in Owned() && this in Owned()
    {
    }

    // A table that is apart from the one that holds the letter.
    twostate lemma NotOwned(new c: Table)
      requires fresh(c) && fresh(c.node) && at == old(at)
      requires forall p | p in at :: unchanged(at[p])
      ensures c !in Tables() && c.node !in Arrays()
    {
    }

    // Sets what a letter leads to, or that it ends a word.
    method Retag(ghost p: Text, t: Table, n: nat, flag: Flag, value: Table?)
      requires Separate() && TablesValid() && p in at && at[p] == t && n < t.node.Length && Used(t.node[..], n) && flag != Empty
      modifies t.node
      ensures Separate() && TablesValid() && Tables() == old(Tables()) && Arrays() == old(Arrays())
      ensures old(t.node[n].key) in old(Snapshot())[p]
      ensures old(Snapshot())[p][old(t.node[n].key)] == Entry(old(t.node[n].flag), old(t.node[n].value))
      ensures Snapshot() == old(Snapshot())[p := Put(old(Snapshot())[p], old(t.node[n].key), Entry(flag, value))]
    {
      hide Entries, Table.Valid, PowerOfTwo, Chained;
      EntryIs(t, n);
      t.Set(n, flag, value);
      Stepped(p);
    }

    // There is one more table.
    ghost method Adopt(q: Text, c: Table)
      requires q !in at && Separate() && TablesValid() && c.Valid() && c !in Tables() && c.node !in Arrays()
      modifies this`at
      ensures at == old(at)[q := c] && Separate() && TablesValid() && Owned() <= old(Owned()) + {c, c.node}
      ensures Snapshot() == old(Snapshot())[q := Entries(c.node[..])]
    {
      hide Entries, Table.Valid;
      ghost var tree := Snapshot();
      at := at[q := c];
      forall p | p in old(at)
        ensures Snapshot()[p] == tree[p]
      {
        assert at[p].node[..] == old(at[p].node[..]);
      }
    }

    // The table of a letter in it, made if there is none.
    method Branch(ghost p: Text, t: Table, n: nat) returns (c: Table)
      requires Valid() && p in at && at[p] == t && n < t.node.Length && Used(t.node[..], n)
      modifies Owned()
      ensures Valid() && words == old(words) && fresh(Owned() - old(Owned()))
      ensures var q := p + [old(t.node[n].key)]; q in at && at[q] == c
    {
      hide Shape, Entries, Table.Valid;
      if t.node[n].value == null {
        c := Sprout(p, t, n);
      } else {
        EntryIs(t, n);
        c := t.node[n].value;
        BranchIs(Snapshot(), at, words, p, t.node[n].key);
      }
    }

    // The cell of a letter in a table, made if there is none.
    method Letter(ghost p: Text, t: Table, k: U32) returns (n: nat)
      requires Valid() && p in at && at[p] == t
      modifies Owned()
      ensures Valid() && words == old(words) && at == old(at) && fresh(Owned() - old(Owned()))
      ensures n < t.node.Length && Used(t.node[..], n) && t.node[n].key == k
    {
      hide Shape, Entries, Table.Valid;
      ghost var tree := Snapshot();
      label Before:
      n := t.Insert(k);
      Stepped@Before(p);
      if k !in tree[p] {
        NewLetter(tree, at, words, p, k);
      } else {
        assert Snapshot() == tree;
      }
    }

    method Finish(ghost p: Text, t: Table, n: nat)
      requires Valid() && p in at && at[p] == t && n < t.node.Length && Used(t.node[..], n)
      modifies Owned()
      ensures Valid() && words == old(words) + {p + [old(t.node[n].key)]} && fresh(Owned() - old(Owned()))
    {
      hide Shape, Entries, Table.Valid, Separate, TablesValid, Snapshot;
      ghost var k, tree := t.node[n].key, Snapshot();
      SnapshotAt(p);
      OwnedParts(p);
      Retag(p, t, n, Terminal, t.node[n].value);
      NewWord(tree, at, words, p, k);
      words := words + {p + [k]};
    }

    // One letter more.
    method Step(ghost p: Text, t: Table?, n: nat, k: U32) returns (t': Table, n': nat)
      requires Valid() && At(t, n, p)
      modifies Owned()
      ensures Valid() && words == old(words) && fresh(Owned() - old(Owned())) && At(t', n', p + [k])
    {
      hide Valid, At, Table.Valid;
      if t == null {
        t' := root;
        RootIn();
        AtStart(t, n, p);
      } else {
        AtLast(t, n, p);
        t' := Branch(p[..|p| - 1], t, n);
      }
      n' := Letter(p, t', k);
      AtNow(t', n', p, k);
    }

    lemma AtStart(t: Table?, n: nat, p: Text)
      requires At(t, n, p) && t == null
      ensures p == []
    {
    }

    lemma AtLast(t: Table, n: nat, p: Text)
      requires At(t, n, p)
      ensures p != [] && n < t.node.Length && Used(t.node[..], n) && p == p[..|p| - 1] + [t.node[n].key]
      ensures p[..|p| - 1] in at && at[p[..|p| - 1]] == t
    {
    }

    lemma AtNow(t: Table, n: nat, p: Text, k: U32)
      requires p in at && at[p] == t && n < t.node.Length && Used(t.node[..], n) && t.node[n].key == k
      ensures At(t, n, p + [k])
    {
      assert (p + [k])[..|p|] == p;
    }

    lemma RootIn()
      requires Valid()
      ensures [] in at && at[[]] == root
    {
    }

    // Enters a word letter by letter, until one is not a number.
    method Insert(word: seq<Rune>) returns (ok: bool)
      requires Valid()
      modifies Owned()
      ensures Valid() && fresh(Owned() - old(Owned()))
      ensures ok <==> Legal(word)
      ensures words == old(words) + if ok && word != [] then {Codes(word)} else {}
    {
      hide Valid, At, Codes, Legal;
      var t: Table?, n := null, 0;
      var i := 0;
      NoCodes();
      assert word[..0] == [];
      NoneYet(t, n);
      while i < |word|
        invariant 0 <= i <= |word| && Valid() && words == old(words) && fresh(Owned() - old(Owned()))
        invariant Legal(word[..i]) && At(t, n, Codes(word[..i])) && (t == null <==> i == 0)
      {
        CodesNext(word, i);
        if word[i].NotANumber? {
          return false;
        }
        t, n := Step(Codes(word[..i]), t, n, word[i].code);
        i := i + 1;
      }
      assert word[..i] == word;
      if t != null {
        End(Codes(word), t, n);
      }
      ok := true;
    }

    lemma NoneYet(t: Table?, n: nat)
      requires t == null
      ensures At(t, n, [])
    {
    }

    method End(ghost p: Text, t: Table, n: nat)
      requires Valid() && p != [] && At(t, n, p)
      modifies Owned()
      ensures Valid() && fresh(Owned() - old(Owned())) && words == old(words) + {p}
    {
      hide Valid, At, Table.Valid;
      AtLast(t, n, p);
      Finish(p[..|p| - 1], t, n);
    }

    ghost predicate At(t: Table?, n: nat, p: Text)
      reads this`at, Tables(), Arrays()
    {
      if p == [] then t == null else
        var q := p[..|p| - 1];
        && q in at && at[q] == t && n < t.node.Length && Used(t.node[..], n) && t.node[n].key == p[|p| - 1]
    }
  }

  datatype Rune = Rune(code: U32) | NotANumber

  ghost predicate Legal(word: seq<Rune>) {
    forall i | 0 <= i < |word| :: word[i].Rune?
  }

  ghost function Codes(word: seq<Rune>): (w: Text)
    ensures |w| == |word|
  {
    seq(|word|, i requires 0 <= i < |word| => if word[i].Rune? then word[i].code else 0)
  }

  lemma NoCodes()
    ensures Codes([]) == [] && Legal([])
  {
  }

  lemma CodesNext(word: seq<Rune>, i: nat)
    requires i < |word|
    ensures Legal(word[..i]) && word[i].Rune? ==> Legal(word[..i + 1]) && Codes(word[..i + 1]) == Codes(word[..i]) + [word[i].code]
    ensures word[i].NotANumber? ==> !Legal(word)
  {
  }

  lemma EmptyTree(tree: Tree, at: map<Text, Table>)
    requires tree.Keys == at.Keys == {[]} && tree[[]] == map[]
    ensures Shape(tree, at, {})
  {
  }

  lemma EntryIs(t: Table, n: nat)
    requires t.Valid() && n < t.node.Length && Used(t.node[..], n)
    ensures var s := Entries(t.node[..]); t.node[n].key in s && s[t.node[n].key] == Entry(t.node[n].flag, t.node[n].value)
  {
    ChainedDistinct(t.node[..], t.rank);
    EntryOf(t.node[..], n);
  }

  lemma BranchIs(tree: Tree, at: map<Text, Table>, words: set<Text>, p: Text, k: U32)
    requires Shape(tree, at, words) && p in tree && k in tree[p] && tree[p][k].value != null
    ensures p + [k] in at && at[p + [k]] == tree[p][k].value
  {
    assert Level(tree, at, words, p);
    assert Leads(tree[p][k], p + [k], at, words);
  }
}
