/** Whole runs on a tree: freeing it, filling it in different orders, and a seek that leaves
    stale data behind. */
module RaxRuns {
  import opened Wrappers
  import opened Bytes
  import opened RaxTree
  import opened RaxZipper
  import opened RaxEdit
  import opened RaxCanonical
  import opened RaxOrder
  import opened RaxHeap
  import opened RaxRemoval
  import opened RaxCompression
  import opened Rax
  import opened RaxRemove
  import opened RaxIterator

  lemma KidsLeft(ks: seq<Shape>, ts: seq<Node>, k: nat)
    requires |ks| == |ts| && k < |ks| && Disjoint(ks)
    ensures SumNodes(ts[k..]) == Nodes(ts[k]) + SumNodes(ts[k + 1..])
    ensures multiset(KidObjs(ks[k..])) == multiset(Objs(ks[k])) + multiset(KidObjs(ks[k + 1..]))
  {
    assert ts[k..][1..] == ts[k + 1..] && ks[k..][1..] == ks[k + 1..];
    KidObjsCut(ks[k..]);
  }

  lemma ObjsOfKids(s: Shape)
    requires Apart(s)
    ensures multiset(Objs(s)) == multiset{s.obj} + multiset(KidObjs(s.kids)) && Disjoint(s.kids)
  {
    assert Objs(s) == {s.obj} + KidObjs(s.kids) && s.obj !in KidObjs(s.kids);
  }

  lemma KidOf(s: Shape, t: Node, k: nat)
    requires Rep(s, t) && Apart(s) && Good(t, false) && k < |t.kids|
    ensures |s.kids| == |t.kids| == |s.obj.kids| && s.kids[k].obj == s.obj.kids[k] && Rep(s.kids[k], t.kids[k])
    ensures Apart(s.kids[k]) && Good(t.kids[k], false)
  {
  }

  lemma NodeOf(s: Shape, t: Node)
    requires Rep(s, t) && Good(t, false)
    ensures |s.kids| == |t.kids| == |s.obj.kids| == if s.obj.compr then 1 else |s.obj.chars|
    ensures Nodes(t) == 1 + SumNodes(t.kids)
  {
  }

  lemma NoneLeft(ks: seq<Shape>, ts: seq<Node>)
    requires |ks| == |ts|
    ensures SumNodes(ts[|ts|..]) == 0 && multiset(KidObjs(ks[|ks|..])) == multiset{}
    ensures ks[0..] == ks && ts[0..] == ts
  {
    assert KidObjs(ks[|ks|..]) == {};
  }

  /** raxRecursiveFree: children from the last to the first, then the node. Every node of the
      tree is released, none twice. */
  method RecursiveFree(rax: Rax, n: RaxNode, ghost s: Shape, ghost t: Node) returns (ghost freed: seq<RaxNode>)
    requires s.obj == n && Rep(s, t) && Apart(s) && Good(t, false)
    modifies rax`numnodes
    ensures rax.numnodes == old(rax.numnodes) - Nodes(t)
    ensures multiset(freed) == multiset(Objs(s))
    decreases t
  {
    hide *;
    NodeOf(s, t);
    ObjsAllocated(s);
    ObjsOfKids(s);
    NoneLeft(s.kids, t.kids);
    var numchildren := if n.compr then 1 else |n.chars|;
    freed := [];
    while numchildren > 0
      invariant 0 <= numchildren <= |n.kids| == |s.kids| == |t.kids| && Rep(s, t)
      invariant rax.numnodes == old(rax.numnodes) - SumNodes(t.kids[numchildren..])
      invariant multiset(freed) == multiset(KidObjs(s.kids[numchildren..]))
    {
      numchildren := numchildren - 1;
      KidsLeft(s.kids, t.kids, numchildren);
      KidOf(s, t, numchildren);
      ghost var more := RecursiveFree(rax, n.kids[numchildren], s.kids[numchildren], t.kids[numchildren]);
      freed := freed + more;
    }
    freed := freed + [n];
    rax.numnodes := rax.numnodes - 1;
  }

  /** raxFree: the assertion on the counter holds. */
  method Free(rax: Rax) returns (ghost freed: seq<RaxNode>)
    requires rax.Valid()
    modifies rax`numnodes
    ensures rax.numnodes == 0 && multiset(freed) == multiset(rax.repr)
  {
    freed := RecursiveFree(rax, rax.head, rax.shape, rax.tree);
    assert rax.numnodes == 0;
  }

  // ---------------------------------------------------------------- trees built by insertions alone

  /** The map after inserting the entries in order, later ones overwriting. */
  function Fill(es: Listing): map<Key, Ptr> {
    if es == [] then map[] else Fill(es[..|es| - 1])[es[|es| - 1].key := es[|es| - 1].val]
  }

  lemma FillStep(es: Listing, i: nat)
    requires i < |es|
    ensures es[i] in es && Fill(es[..i + 1]) == Fill(es[..i])[es[i].key := es[i].val]
  {
    assert es[..i + 1][..i] == es[..i];
  }

  /** Every key fits a node. */
  predicate Short(es: Listing) {
    forall e | e in es :: |e.key| <= NODE_MAX_SIZE
  }

  lemma ShortAt(es: Listing, i: nat)
    requires i < |es|
    ensures Short(es) ==> |es[i].key| <= NODE_MAX_SIZE
  {
  }

  /** The tree holds the first i entries, and is maximally compressed when the keys are short. */
  ghost predicate Filled(rax: Rax, es: Listing, i: nat)
    reads rax, rax.repr
  {
    i <= |es| && rax.Valid() && rax.Contents() == Fill(es[..i]) && (Short(es) ==> Good(rax.tree, true))
  }

  method FillNext(rax: Rax, es: Listing, i: nat)
    requires i < |es| && Filled(rax, es, i)
    modifies rax, rax.repr
    ensures Filled(rax, es, i + 1) && fresh(rax.repr - old(rax.repr))
  {
    hide Fill, Short, Good, rax.Valid;
    FillStep(es, i);
    ShortAt(es, i);
    var inserted, prev;
    ghost var freed;
    inserted, prev, freed := rax.GenericInsert(es[i].key, es[i].val, true);
  }

  /** A new tree filled by insertions. */
  method InsertAll(es: Listing) returns (rax: Rax)
    ensures fresh(rax) && rax.Valid() && fresh(rax.repr) && rax.Contents() == Fill(es)
    ensures Short(es) ==> Good(rax.tree, true)
  {
    rax := new Rax();
    NothingFilled(rax.tree, es);
    hide Fill, Short, Good;
    var i := 0;
    while i < |es|
      invariant fresh(rax) && fresh(rax.repr) && Filled(rax, es, i)
    {
      FillNext(rax, es, i);
      i := i + 1;
    }
    AllFilled(es);
  }

  lemma NothingFilled(t: Node, es: Listing)
    requires Good(t, false) && MapOf(t) == map[]
    ensures MapOf(t) == Fill(es[..0])
  {
  }

  lemma AllFilled(es: Listing)
    ensures es[..|es|] == es
  {
  }

  /** Equal maps, equal trees: nothing of the order of insertions is left in the structure. */
  lemma SameMapSameTree(a: Node, b: Node)
    requires Good(a, true) && Good(b, true) && Good(a, false) && Good(b, false) && MapOf(a) == MapOf(b)
    ensures a == b
  {
    forall k ensures Lookup(a, k) == Lookup(b, k) {
      MapLookup(a, k);
      MapLookup(b, k);
    }
    Canonical(a, b);
  }

  /** No key occurs twice. */
  predicate Distinct(es: Listing) {
    forall i, j | 0 <= i < j < |es| :: es[i].key != es[j].key
  }

  lemma {:induction false} FillHas(es: Listing, k: Key, v: Ptr)
    requires Distinct(es)
    ensures k in Fill(es) && Fill(es)[k] == v <==> Entry(k, v) in es
  {
    if es != [] {
      var front, e := es[..|es| - 1], es[|es| - 1];
      FillHas(front, k, v);
      assert es == front + [e];
      forall i | 0 <= i < |front| ensures front[i].key != e.key { assert front[i] == es[i]; }
    }
  }

  /** Two orders of the same entries fill the same map. */
  lemma FillPermuted(xs: Listing, ys: Listing)
    requires Distinct(xs) && Distinct(ys) && multiset(xs) == multiset(ys)
    ensures Fill(xs) == Fill(ys)
  {
    forall e ensures e in xs <==> e in ys {
      assert e in multiset(xs) <==> e in multiset(ys);
    }
    forall k ensures (k in Fill(xs) <==> k in Fill(ys)) && (k in Fill(xs) ==> Fill(xs)[k] == Fill(ys)[k]) {
      if k in Fill(xs) { FillHas(xs, k, Fill(xs)[k]); FillHas(ys, k, Fill(xs)[k]); }
      if k in Fill(ys) { FillHas(ys, k, Fill(ys)[k]); FillHas(xs, k, Fill(ys)[k]); }
    }
  }

  /** Two insertion orders of the same entries give structurally identical trees. */
  method TwoOrders(xs: Listing, ys: Listing) returns (a: Rax, b: Rax)
    requires Distinct(xs) && Distinct(ys) && multiset(xs) == multiset(ys)
    ensures a.Valid() && b.Valid() && a.repr !! b.repr && a.Contents() == b.Contents() == Fill(xs)
    ensures Short(xs) ==> a.tree == b.tree
  {
    forall e | e in ys ensures e in xs {
      assert e in multiset(ys);
    }
    a := InsertAll(xs);
    b := InsertAll(ys);
    FillPermuted(xs, ys);
    if Short(xs) { SameMapSameTree(a.tree, b.tree); }
  }

  // ---------------------------------------------------------------- any compressed tree is built by insertions

  lemma EntriesFill(t: Node)
    requires Good(t, false)
    ensures Fill(Entries(t)) == MapOf(t)
  {
    var es := Entries(t);
    EntriesDistinct(t);
    hide Good, Lookup, Entries, MapOf, Fill, Distinct;
    forall k ensures (k in Fill(es) <==> k in MapOf(t)) && (k in Fill(es) ==> Fill(es)[k] == MapOf(t)[k]) {
      MapLookup(t, k);
      if k in Fill(es) {
        FillHas(es, k, Fill(es)[k]);
        EntryIffLookup(t, Entry(k, Fill(es)[k]));
      }
      if k in MapOf(t) {
        EntryIffLookup(t, Entry(k, MapOf(t)[k]));
        FillHas(es, k, MapOf(t)[k]);
      }
    }
  }

  lemma EntriesDistinct(t: Node)
    requires Good(t, false)
    ensures Distinct(Entries(t))
  {
    EntriesAscending(t);
    hide Entries, Good;
    forall i, j | 0 <= i < j < |Entries(t)| ensures Entries(t)[i].key != Entries(t)[j].key {
      LessTotal(Entries(t)[i].key, Entries(t)[j].key);
    }
  }

  lemma EntriesShort(t: Node)
    requires Good(t, false) && ShortKeys(t)
    ensures Short(Entries(t))
  {
    hide Good, Entries;
    forall e | e in Entries(t) ensures |e.key| <= NODE_MAX_SIZE {
      EntryIffLookup(t, e);
    }
  }

  /** Every maximally compressed tree whose keys fit a node is what insertions build. */
  method BuildTree(t: Node) returns (rax: Rax)
    requires Good(t, true) && Good(t, false) && ShortKeys(t)
    ensures fresh(rax) && rax.Valid() && fresh(rax.repr) && rax.tree == t
  {
    EntriesFill(t);
    EntriesShort(t);
    rax := InsertAll(Entries(t));
    hide *;
    ContentsAreMap(rax);
    SameMapSameTree(rax.tree, t);
  }

  /** A run that inserts the keys of a maximally compressed tree and removes one of them. */
  method BuildAndRemove(t: Node, s: Key) returns (rax: Rax)
    requires Good(t, true) && Good(t, false) && ShortKeys(t) && s in MapOf(t)
    ensures rax.Valid() && rax.Contents() == MapOf(t) - {s} && IsWithout(t, s, rax.tree)
    ensures Good(rax.tree, false) && (Good(rax.tree, true) <==> StaysCompressed(t, s, true))
    ensures Tight(rax.tree, false) <==> StaysCompressed(t, s, false)
  {
    rax := BuildTree(t);
    ShortKeysFit(t, s);
    TightGood(t);
    TightWeaken(t);
    hide *;
    ContentsAreMap(rax);
    var removed, prev;
    ghost var freed;
    removed, prev, freed := Remove(rax, s);
    StaysExactly(t, s, rax.tree);
    CompressedExactly(t, s, rax.tree);
  }

  /** In an empty tree insertion keeps maximal compression exactly for the keys that fit a node. */
  lemma FirstKeySnug(s: Key)
    ensures Snug(EMPTY, s) <==> |s| < 0x2000_0000
  {
    assert Path([]) == [] && Chain(EMPTY, [], EMPTY) && Stopped([], EMPTY, s, 0, 0);
    SnugStop(EMPTY, [], EMPTY, s, 0, 0);
  }

  // ---------------------------------------------------------------- a tree that no removal of "ab" fits

  const AB: Key := [97, 98]
  const AB_TREE: Node := Node(None, true, AB, [LEAF_NODE])

  function LongKey(l: Key): Key { [97, 99] + l }

  lemma LeafLookup(r: Key)
    ensures Good(LEAF_NODE, false) && Lookup(LEAF_NODE, r) == if r == [] then Some(1) else None
  {
  }

  lemma ForkLookup(l: Key, r: Key)
    requires 2 <= |l| <= NODE_MAX_SIZE
    ensures Good(Fork(l), false) && !Hollow(Fork(l))
    ensures Lookup(Fork(l), r) == if r == [98] || r == [99] + l then Some(1) else None
  {
    LeafLookup([]);
    LinkLookup(None, l, LEAF_NODE, []);
    assert Good(Fork(l), false);
    if r != [] {
      var t := r[1..];
      assert r == [r[0]] + t;
      LeafLookup(t);
      LinkLookup(None, l, LEAF_NODE, t);
      if l <= t {
        LeafLookup(t[|l|..]);
        assert t == l + t[|l|..];
      }
    }
  }

  lemma ForkedLookup(l: Key, k: Key)
    requires 2 <= |l| <= NODE_MAX_SIZE
    ensures Good(Forked(l), false) && Lookup(Forked(l), k) == if k == AB || k == LongKey(l) then Some(1) else None
  {
    ForkLookup(l, []);
    LinkLookup(None, [97], Fork(l), k);
    hide Fork, Lookup, Good, Link;
    if [97] <= k {
      ForkLookup(l, k[1..]);
      assert k == [97] + k[1..];
      assert AB == [97] + [98] && LongKey(l) == [97] + ([99] + l);
    }
  }

  lemma ForkedMap(l: Key)
    requires 2 <= |l| <= NODE_MAX_SIZE
    ensures Good(Forked(l), false) && MapOf(Forked(l)) == map[AB := 1, LongKey(l) := 1]
  {
    ForkedLookup(l, []);
    var m, m' := MapOf(Forked(l)), map[AB := 1, LongKey(l) := 1];
    forall k ensures (k in m <==> k in m') && (k in m ==> m[k] == m'[k]) {
      MapLookup(Forked(l), k);
      ForkedLookup(l, k);
    }
  }

  lemma AbLookup(k: Key)
    ensures Good(AB_TREE, true) && Good(AB_TREE, false)
    ensures Lookup(AB_TREE, k) == if k == AB then Some(1) else None
  {
    LeafLookup([]);
    LinkLookup(None, AB, LEAF_NODE, k);
    assert AB_TREE == Link(None, AB, LEAF_NODE);
    assert Good(LEAF_NODE, true) && Good(AB_TREE, true);
    if AB <= k {
      LeafLookup(k[2..]);
      assert k == AB + k[2..];
    }
  }

  lemma AbMap()
    ensures Good(AB_TREE, true) && Good(AB_TREE, false) && MapOf(AB_TREE) == map[AB := 1]
  {
    AbLookup([]);
    hide Good, Lookup, MapOf;
    var m, m' := MapOf(AB_TREE), map[AB := 1];
    forall k ensures (k in m <==> k in m') && (k in m ==> m[k] == m'[k]) {
      MapLookup(AB_TREE, k);
      AbLookup(k);
    }
  }

  /** The walk for the long key stops behind its first byte. */
  lemma LongKeySnug(l: Key)
    requires |l| == NODE_MAX_SIZE - 1
    ensures Snug(AB_TREE, LongKey(l))
  {
    var s := LongKey(l);
    assert Path([]) == [] && AB[..1] == [97] && s[..1] == [97];
    assert Chain(AB_TREE, [], AB_TREE) && Stopped([], AB_TREE, s, 1, 1);
    SnugStop(AB_TREE, [], AB_TREE, s, 1, 1);
  }

  lemma AbFill()
    ensures Fill([Entry(AB, 1)]) == map[AB := 1] && Short([Entry(AB, 1)])
  {
    assert [Entry(AB, 1)][..0] == [];
  }

  /** Insertions build the tree of which the removal of "ab" makes the second scan overrun. */
  method BuildForked(l: Key) returns (rax: Rax)
    requires |l| == NODE_MAX_SIZE - 1
    ensures rax.Valid() && rax.tree == Forked(l) && !RemovalFits(rax.tree, AB)
  {
    AbFill();
    ForkedMap(l);
    LongKeyOverruns(l);
    rax := InsertAll([Entry(AB, 1)]);
    hide *;
    AbMap();
    ContentsAreMap(rax);
    SameMapSameTree(rax.tree, AB_TREE);
    LongKeySnug(l);
    var inserted, prev;
    ghost var freed;
    inserted, prev, freed := rax.GenericInsert(LongKey(l), 1, true);
    ContentsAreMap(rax);
    SameMapSameTree(rax.tree, Forked(l));
  }

  // ---------------------------------------------------------------- stale data after a seek

  const F: Key := [102]
  const FOO: Key := [102, 111, 111]
  const OOBAR: Key := [111, 111, 98, 97, 114]

  const LEAF: Node := Node(Some(2), false, [], [])
  const MIDDLE: Node := Node(Some(1), true, OOBAR, [LEAF])

  /** "f" above "oobar", both keys. */
  const FOOBAR_TREE: Node := Node(None, false, F, [MIDDLE])

  lemma FoobarGood(canon: bool)
    ensures Good(LEAF, canon) && Good(MIDDLE, canon) && Good(FOOBAR_TREE, canon)
  {
    assert Good(LEAF, canon);
    assert Good(MIDDLE, canon);
  }

  lemma FoobarLookup(k: Key)
    ensures Good(FOOBAR_TREE, false)
    ensures Lookup(FOOBAR_TREE, k) == if k == F then Some(1) else if k == F + OOBAR then Some(2) else None
  {
    FoobarGood(false);
    if F <= k {
      var r := k[1..];
      assert k == F + r;
      assert Edge(FOOBAR_TREE, k) == 0 && Lookup(FOOBAR_TREE, k) == Lookup(MIDDLE, r);
      if OOBAR <= r {
        assert r == OOBAR + r[5..];
        assert Edge(MIDDLE, r) == 0 && Lookup(MIDDLE, r) == Lookup(LEAF, r[5..]);
      }
    }
  }

  lemma FoobarMap()
    ensures Good(FOOBAR_TREE, false) && MapOf(FOOBAR_TREE) == map[F := 1, F + OOBAR := 2]
  {
    FoobarGood(false);
    var m, m' := MapOf(FOOBAR_TREE), map[F := 1, F + OOBAR := 2];
    forall k ensures (k in m <==> k in m') && (k in m ==> m[k] == m'[k]) {
      MapLookup(FOOBAR_TREE, k);
      FoobarLookup(k);
    }
  }

  lemma FoobarEnds()
    ensures Good(FOOBAR_TREE, false) && EndsInsideKey(FOOBAR_TREE, FOO)
  {
    FoobarGood(false);
    assert Edge(FOOBAR_TREE, FOO) == 0 && FOO[1..] == [111, 111];
    assert Edge(MIDDLE, FOO[1..]) == 1;
  }

  /** Among "f" and "foobar" only "f" is not greater than "foo". */
  lemma FoobarWanted(k: nat)
    ensures Good(FOOBAR_TREE, false) && !NoneWanted(Entries(FOOBAR_TREE), "<=", FOO)
    ensures Best(Entries(FOOBAR_TREE), "<=", FOO, k) ==> Entries(FOOBAR_TREE)[k].key == F
  {
    FoobarGood(false);
    var es := Entries(FOOBAR_TREE);
    assert FOO == F + [111, 111] && F + OOBAR == FOO + [98, 97, 114];
    LessExtend(F, [111, 111]);
    LessExtend(FOO, [98, 97, 114]);
    LessTotal(FOO, F + OOBAR);
    forall j | 0 <= j < |es| ensures Wanted("<=", FOO, es[j].key) ==> es[j].key == F {
      EntryIffLookup(FOOBAR_TREE, es[j]);
      FoobarLookup(es[j].key);
    }
    EntryIffLookup(FOOBAR_TREE, Entry(F, 1));
    FoobarLookup(F);
    var j :| 0 <= j < |es| && es[j] == Entry(F, 1);
    assert Wanted("<=", FOO, es[j].key);
  }

  lemma FoobarFill()
    ensures Fill([Entry(F, 1), Entry(F + OOBAR, 2)]) == map[F := 1, F + OOBAR := 2]
    ensures Short([Entry(F, 1), Entry(F + OOBAR, 2)])
  {
    var es := [Entry(F, 1), Entry(F + OOBAR, 2)];
    FillStep(es, 0);
    FillStep(es, 1);
    assert es[..0] == [] && es[..2] == es;
    assert Fill(es[..1]) == map[F := 1];
  }

  lemma ContentsAreMap(rax: Rax)
    requires rax.Valid()
    ensures Good(rax.tree, false) && rax.Contents() == MapOf(rax.tree)
  {
  }

  /** A tree of the keys "f" and "foobar", built the usual way. */
  method FoobarRax() returns (rax: Rax)
    ensures fresh(rax) && rax.Valid() && fresh(rax.repr) && rax.tree == FOOBAR_TREE
  {
    FoobarFill();
    rax := InsertAll([Entry(F, 1), Entry(F + OOBAR, 2)]);
    hide *;
    FoobarGood(true);
    FoobarMap();
    ContentsAreMap(rax);
    SameMapSameTree(rax.tree, FOOBAR_TREE);
  }

  /** A new iterator that seeks "<=" of "foo" stops on the key "f" and reports NULL for it,
      although "f" is mapped to 1. */
  method StaleSeek() returns (rax: Rax, it: RaxIterator)
    ensures rax.Valid() && it.rt == rax && !it.eof && it.key == F && it.data == 0
    ensures MapOf(rax.tree) == map[F := 1, F + OOBAR := 2]
  {
    FoobarEnds();
    FoobarMap();
    rax := FoobarRax();
    it := new RaxIterator(rax);
    var ok;
    ghost var k: nat;
    ok, k := it.Seek("<=", FOO);
    FoobarWanted(k);
    it.OnEntry(k);
  }
}
