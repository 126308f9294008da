/** The ordered listing of a tree: which keys it holds, in which order a traversal meets
    them, and how a position cuts the listing in two. */
module RaxOrder {
  import opened Wrappers
  import opened Bytes
  import opened RaxTree
  import opened RaxZipper

  datatype Entry = Entry(key: Key, val: Ptr)

  type Listing = seq<Entry>

  function Prefixed(p: Key, es: Listing): (r: Listing)
    ensures |r| == |es|
    ensures forall i | 0 <= i < |es| :: r[i] == Entry(p + es[i].key, es[i].val)
  {
    seq(|es|, i requires 0 <= i < |es| => Entry(p + es[i].key, es[i].val))
  }

  function Own(n: Node): Listing {
    if n.val.Some? then [Entry([], n.val.value)] else []
  }

  function Labels(n: Node): (ls: seq<Key>)
    requires Format(n)
    ensures |ls| == |n.kids|
    ensures forall i | 0 <= i < |ls| :: ls[i] == Label(n, i)
  {
    seq(|n.kids|, i requires 0 <= i < |n.kids| => Label(n, i))
  }

  /** Keys and data in the order of the nodes: a node first, then its children from left to right. */
  function Entries(n: Node): Listing
    requires Good(n, false)
    decreases n, 1
  {
    Own(n) + KidEntries(Labels(n), n.kids)
  }

  function KidEntries(ls: seq<Key>, ks: seq<Node>): Listing
    requires |ls| == |ks| && forall i | 0 <= i < |ks| :: Good(ks[i], false)
    decreases ks, 0
  {
    if ks == [] then [] else Prefixed(ls[0], Entries(ks[0])) + KidEntries(ls[1..], ks[1..])
  }

  lemma {:induction false} KidEntriesConcat(l1: seq<Key>, k1: seq<Node>, l2: seq<Key>, k2: seq<Node>)
    requires |l1| == |k1| && |l2| == |k2|
    requires forall i | 0 <= i < |k1| :: Good(k1[i], false)
    requires forall i | 0 <= i < |k2| :: Good(k2[i], false)
    ensures forall i | 0 <= i < |k1 + k2| :: Good((k1 + k2)[i], false)
    ensures KidEntries(l1 + l2, k1 + k2) == KidEntries(l1, k1) + KidEntries(l2, k2)
  {
    hide Good, Entries, Prefixed;
    if k1 == [] {
      assert l1 + l2 == l2 && k1 + k2 == k2;
    } else {
      assert (l1 + l2)[1..] == l1[1..] + l2 && (k1 + k2)[1..] == k1[1..] + k2;
      KidEntriesConcat(l1[1..], k1[1..], l2, k2);
    }
  }

  lemma PrefixedNil(a: Listing)
    ensures Prefixed([], a) == a
  {
    forall i | 0 <= i < |a| ensures Prefixed([], a)[i] == a[i] {
      assert [] + a[i].key == a[i].key;
    }
  }

  lemma PrefixedConcat(p: Key, a: Listing, b: Listing)
    ensures Prefixed(p, a + b) == Prefixed(p, a) + Prefixed(p, b)
  {
  }

  lemma PrefixedTwice(p: Key, q: Key, a: Listing)
    ensures Prefixed(p, Prefixed(q, a)) == Prefixed(p + q, a)
  {
    forall i | 0 <= i < |a|
      ensures Prefixed(p, Prefixed(q, a))[i] == Prefixed(p + q, a)[i]
    {
      assert p + (q + a[i].key) == (p + q) + a[i].key;
    }
  }

  // ---------------------------------------------------------------- the listing is the map

  lemma PrefixedIn(p: Key, es: Listing, e: Entry)
    ensures e in Prefixed(p, es) <==> p <= e.key && Entry(e.key[|p|..], e.val) in es
  {
    if e in Prefixed(p, es) {
      var i :| 0 <= i < |es| && Prefixed(p, es)[i] == e;
      assert e.key[|p|..] == es[i].key;
    }
    if p <= e.key && Entry(e.key[|p|..], e.val) in es {
      var i :| 0 <= i < |es| && es[i] == Entry(e.key[|p|..], e.val);
      assert Prefixed(p, es)[i] == e;
    }
  }

  /** The entry lies behind an edge labelled l that leads to n. */
  predicate Behind(l: Key, n: Node, e: Entry)
    requires Good(n, false)
  {
    l <= e.key && Entry(e.key[|l|..], e.val) in Entries(n)
  }

  lemma KidEntriesSplit(ls: seq<Key>, ks: seq<Node>, e: Entry)
    requires |ls| == |ks| > 0 && forall i | 0 <= i < |ks| :: Good(ks[i], false)
    ensures e in KidEntries(ls, ks) <==> Behind(ls[0], ks[0], e) || e in KidEntries(ls[1..], ks[1..])
  {
    hide Good;
    PrefixedIn(ls[0], Entries(ks[0]), e);
  }

  lemma {:induction false} KidEntriesIn(ls: seq<Key>, ks: seq<Node>, e: Entry)
    requires |ls| == |ks| && forall i | 0 <= i < |ks| :: Good(ks[i], false)
    ensures e in KidEntries(ls, ks) <==> exists i | 0 <= i < |ks| :: Behind(ls[i], ks[i], e)
  {
    if ks != [] {
      KidEntriesIn(ls[1..], ks[1..], e);
      KidEntriesSplit(ls, ks, e);
      hide Good, Behind, KidEntries;
      if i :| 1 <= i < |ks| && Behind(ls[i], ks[i], e) {
        assert Behind(ls[1..][i - 1], ks[1..][i - 1], e);
      }
    }
  }

  /** An entry is listed exactly when the tree maps its key to its value. */
  lemma {:induction false} EntryIffLookup(n: Node, e: Entry)
    requires Good(n, false)
    ensures e in Entries(n) <==> Lookup(n, e.key) == Some(e.val)
    decreases n
  {
    KidEntriesIn(Labels(n), n.kids, e);
    forall i | 0 <= i < |n.kids| && Label(n, i) <= e.key
      ensures Behind(Label(n, i), n.kids[i], e) <==> Lookup(n, e.key) == Some(e.val)
    {
      assert Edge(n, e.key) == i;
      EntryIffLookup(n.kids[i], Entry(e.key[|Label(n, i)|..], e.val));
    }
    assert e in Entries(n) <==> e in Own(n) || e in KidEntries(Labels(n), n.kids);
  }

  /** The finite map a tree stands for. */
  function MapOf(n: Node): (m: map<Key, Ptr>)
    requires Good(n, false)
  {
    map k | k in set e | e in Entries(n) :: e.key :: match Lookup(n, k) case Some(v) => v case None => 0
  }

  lemma MapLookup(n: Node, k: Key)
    requires Good(n, false)
    ensures k in MapOf(n) <==> Lookup(n, k).Some?
    ensures k in MapOf(n) ==> Lookup(n, k) == Some(MapOf(n)[k])
  {
    if Lookup(n, k).Some? {
      var e := Entry(k, Lookup(n, k).value);
      EntryIffLookup(n, e);
      assert e.key == k;
    }
    if k in MapOf(n) {
      var e :| e in Entries(n) && e.key == k;
      EntryIffLookup(n, e);
    }
  }

  lemma UpdateSize(m: map<Key, Ptr>, k: Key, v: Ptr)
    ensures |m[k := v]| == |m| + (if k in m then 0 else 1)
    ensures |m - {k}| == |m| - (if k in m then 1 else 0)
  {
    assert m[k := v].Keys == m.Keys + {k};
    assert (m - {k}).Keys == m.Keys - {k};
  }

  /** Trees that agree on every key but s, where the second holds v. */
  lemma MapUpdate(t: Node, t': Node, s: Key, v: Ptr)
    requires Good(t, false) && Good(t', false)
    requires forall k :: Lookup(t', k) == if k == s then Some(v) else Lookup(t, k)
    ensures MapOf(t') == MapOf(t)[s := v]
  {
    hide Good, Lookup, MapOf;
    var m, m' := MapOf(t)[s := v], MapOf(t');
    forall k ensures (k in m' <==> k in m) && (k in m' ==> m'[k] == m[k]) {
      MapLookup(t, k);
      MapLookup(t', k);
    }
  }

  /** Trees that agree on every key but s, which the second does not hold. */
  lemma MapRemove(t: Node, t': Node, s: Key)
    requires Good(t, false) && Good(t', false)
    requires forall k :: Lookup(t', k) == if k == s then None else Lookup(t, k)
    ensures MapOf(t') == MapOf(t) - {s}
  {
    hide Good, Lookup, MapOf;
    var m, m' := MapOf(t) - {s}, MapOf(t');
    forall k ensures (k in m' <==> k in m) && (k in m' ==> m'[k] == m[k]) {
      MapLookup(t, k);
      MapLookup(t', k);
    }
  }

  // ---------------------------------------------------------------- the listing is sorted

  predicate Ascending(es: Listing) {
    forall i, j | 0 <= i < j < |es| :: Less(es[i].key, es[j].key)
  }

  lemma AscendingPrefixed(p: Key, es: Listing)
    requires Ascending(es)
    ensures Ascending(Prefixed(p, es))
  {
    forall i, j | 0 <= i < j < |es| ensures Less(Prefixed(p, es)[i].key, Prefixed(p, es)[j].key) {
      LessPrefix(p, es[i].key, es[j].key);
    }
  }

  /** Edges in ascending order of their first bytes. */
  predicate AscendingEdges(ls: seq<Key>) {
    && (forall i | 0 <= i < |ls| :: ls[i] != [])
    && forall i, j | 0 <= i < j < |ls| :: ls[i][0] < ls[j][0]
  }

  lemma {:induction false} KidEntriesFirst(ls: seq<Key>, ks: seq<Node>, e: Entry)
    requires |ls| == |ks| && (forall i | 0 <= i < |ks| :: Good(ks[i], false)) && AscendingEdges(ls)
    requires e in KidEntries(ls, ks)
    ensures e.key != [] && exists i | 0 <= i < |ls| :: ls[i][0] == e.key[0]
  {
    KidEntriesIn(ls, ks, e);
    var i :| 0 <= i < |ks| && Behind(ls[i], ks[i], e);
  }

  lemma {:induction false} EntriesAscending(n: Node)
    requires Good(n, false)
    ensures Ascending(Entries(n))
    decreases n, 1
  {
    var ls := Labels(n);
    assert AscendingEdges(ls);
    KidEntriesAscending(ls, n.kids);
    forall i | 0 <= i < |KidEntries(ls, n.kids)| ensures KidEntries(ls, n.kids)[i].key != [] {
      KidEntriesFirst(ls, n.kids, KidEntries(ls, n.kids)[i]);
    }
  }

  lemma {:induction false} KidEntriesAscending(ls: seq<Key>, ks: seq<Node>)
    requires |ls| == |ks| && (forall i | 0 <= i < |ks| :: Good(ks[i], false)) && AscendingEdges(ls)
    ensures Ascending(KidEntries(ls, ks))
    decreases ks, 0
  {
    if ks != [] {
      var a, b := Prefixed(ls[0], Entries(ks[0])), KidEntries(ls[1..], ks[1..]);
      EntriesAscending(ks[0]);
      AscendingPrefixed(ls[0], Entries(ks[0]));
      KidEntriesAscending(ls[1..], ks[1..]);
      forall i, j | 0 <= i < |a| && 0 <= j < |b| ensures Less(a[i].key, b[j].key) {
        KidEntriesFirst(ls[1..], ks[1..], b[j]);
        assert a[i].key[0] == ls[0][0];
      }
    }
  }

  // ---------------------------------------------------------------- cutting the listing at a position

  /** Listed before everything under one child of a node. */
  function FrameBefore(f: Frame): Listing
    requires FrameGood(f, false)
  {
    Own(f.node) + KidEntries(Labels(f.node)[..f.idx], f.node.kids[..f.idx])
  }

  /** Listed after everything under one child of a node. */
  function FrameAfter(f: Frame): Listing
    requires FrameGood(f, false)
  {
    KidEntries(Labels(f.node)[f.idx + 1..], f.node.kids[f.idx + 1..])
  }

  /** Listed before everything under the position. */
  function Before(st: Stack): Listing
    requires CtxGood(st, false)
  {
    if st == [] then []
    else
      CtxGoodStackOk(st, false);
      Before(Init(st)) + Prefixed(Path(Init(st)), FrameBefore(Top(st)))
  }

  /** Listed after everything under the position. */
  function After(st: Stack): Listing
    requires CtxGood(st, false)
  {
    if st == [] then []
    else
      CtxGoodStackOk(st, false);
      Prefixed(Path(Init(st)), FrameAfter(Top(st))) + After(Init(st))
  }

  lemma KidsCut(ls: seq<Key>, ks: seq<Node>, i: nat)
    requires |ls| == |ks| && i < |ks| && forall j | 0 <= j < |ks| :: Good(ks[j], false)
    ensures KidEntries(ls, ks) ==
            KidEntries(ls[..i], ks[..i]) + Prefixed(ls[i], Entries(ks[i])) + KidEntries(ls[i + 1..], ks[i + 1..])
  {
    assert ls == ls[..i] + ls[i..] && ks == ks[..i] + ks[i..];
    KidEntriesConcat(ls[..i], ks[..i], ls[i..], ks[i..]);
    assert ls[i..][1..] == ls[i + 1..] && ks[i..][1..] == ks[i + 1..];
  }

  lemma KidEntriesCut(f: Frame)
    requires FrameOk(f) && Good(f.node, false)
    ensures Entries(f.node) == FrameBefore(f) + Prefixed(Step(f), Entries(Child(f))) + FrameAfter(f)
  {
    KidsCut(Labels(f.node), f.node.kids, f.idx);
    var l, r := KidEntries(Labels(f.node)[..f.idx], f.node.kids[..f.idx]), FrameAfter(f);
    Reassociate(Own(f.node), l, Prefixed(Step(f), Entries(Child(f))), r);
  }

  lemma Reassociate(a: Listing, b: Listing, c: Listing, d: Listing)
    ensures a + (b + c + d) == (a + b) + c + d
  {
  }

  /** The same cut for a listing prefixed with the path to the node. */
  lemma FrameCut(p: Key, f: Frame)
    requires FrameOk(f) && Good(f.node, false)
    ensures Prefixed(p, Entries(f.node)) ==
            Prefixed(p, FrameBefore(f)) + Prefixed(p + Step(f), Entries(Child(f))) + Prefixed(p, FrameAfter(f))
  {
    KidEntriesCut(f);
    PrefixedTwice(p, Step(f), Entries(Child(f)));
    PrefixedConcat(p, FrameBefore(f) + Prefixed(Step(f), Entries(Child(f))), FrameAfter(f));
    PrefixedConcat(p, FrameBefore(f), Prefixed(Step(f), Entries(Child(f))));
  }

  /** Going one child down moves what surrounds the child to the outside. */
  lemma CutStep(st: Stack)
    requires st != [] && CtxGood(st, false) && StackOk(st) && Good(Top(st).node, false)
    ensures Before(Init(st)) + Prefixed(Path(Init(st)), Entries(Top(st).node)) + After(Init(st)) ==
            Before(st) + Prefixed(Path(st), Entries(Child(Top(st)))) + After(st)
  {
    var p, f := Path(Init(st)), Top(st);
    FrameCut(p, f);
    var x, y, z := Prefixed(p, FrameBefore(f)), Prefixed(p + Step(f), Entries(Child(f))), Prefixed(p, FrameAfter(f));
    Regroup(Before(Init(st)), x, y, z, After(Init(st)));
  }

  lemma Regroup(a: Listing, x: Listing, y: Listing, z: Listing, b: Listing)
    ensures a + (x + y + z) + b == (a + x) + y + (z + b)
  {
  }

  /** The listing is what comes before the position, what is under it, and what comes after. */
  lemma {:induction false} EntriesCut(root: Node, st: Stack, h: Node)
    requires Good(root, false) && Chain(root, st, h)
    ensures CtxGood(st, false) && Good(h, false) && StackOk(st)
    ensures Entries(root) == Before(st) + Prefixed(Path(st), Entries(h)) + After(st)
  {
    ChainGood(root, st, h, false);
    CtxGoodStackOk(st, false);
    if st == [] {
      PrefixedNil(Entries(h));
    } else {
      EntriesCut(root, Init(st), Top(st).node);
      CutStep(st);
    }
  }
}
