/** Ranks: how far into the ordered listing a position lies, how the rank moves from node to
    node, and where in the listing the walk for a string stops. */
module RaxRank {
  import opened Bytes
  import opened RaxTree
  import opened RaxZipper
  import opened RaxEdit
  import opened RaxOrder

  /** Entries under the first i children. */
  function KidCount(n: Node, i: nat): nat
    requires Good(n, false) && i <= |n.kids|
  {
    |KidEntries(Labels(n)[..i], n.kids[..i])|
  }

  lemma KidCountStep(n: Node, i: nat)
    requires Good(n, false) && i < |n.kids|
    ensures KidCount(n, i + 1) == KidCount(n, i) + |Entries(n.kids[i])|
  {
    KidEntriesLast(Labels(n), n.kids, i);
  }

  lemma KidEntriesLast(ls: seq<Key>, ks: seq<Node>, i: nat)
    requires |ls| == |ks| && i < |ks| && forall j | 0 <= j < |ks| :: Good(ks[j], false)
    ensures KidEntries(ls[..i + 1], ks[..i + 1]) == KidEntries(ls[..i], ks[..i]) + Prefixed(ls[i], Entries(ks[i]))
  {
    var l, k := [ls[i]], [ks[i]];
    assert ls[..i + 1] == ls[..i] + l && ks[..i + 1] == ks[..i] + k;
    KidEntriesConcat(ls[..i], ks[..i], l, k);
    assert l[1..] == [] && k[1..] == [];
    assert KidEntries(l, k) == Prefixed(ls[i], Entries(ks[i]));
  }

  lemma KidCountAll(n: Node)
    requires Good(n, false)
    ensures KidCount(n, 0) == 0
    ensures |Entries(n)| == |Own(n)| + KidCount(n, |n.kids|)
  {
    assert Labels(n)[..|n.kids|] == Labels(n) && n.kids[..|n.kids|] == n.kids;
  }

  /** How many entries precede everything under the position. */
  function Rank(st: Stack): nat
    requires CtxGood(st, false)
  {
    |Before(st)|
  }

  lemma RankIs(st: Stack)
    requires CtxGood(st, false)
    ensures Rank(st) == |Before(st)|
  {
  }

  lemma DownGood(st: Stack, t: Node, i: nat)
    requires CtxGood(st, false) && Good(t, false) && Fits(st, t, false) && i < |t.kids|
    ensures var d := st + [Frame(t, i)];
            CtxGood(d, false) && Good(t.kids[i], false) && Fits(d, t.kids[i], false)
  {
    assert Init(st + [Frame(t, i)]) == st && Top(st + [Frame(t, i)]) == Frame(t, i);
  }

  lemma RankDown(st: Stack, t: Node, i: nat)
    requires CtxGood(st, false) && Good(t, false) && Fits(st, t, false) && i < |t.kids|
    ensures CtxGood(st + [Frame(t, i)], false)
    ensures Rank(st + [Frame(t, i)]) == Rank(st) + |Own(t)| + KidCount(t, i)
  {
    DownGood(st, t, i);
    assert Init(st + [Frame(t, i)]) == st && Top(st + [Frame(t, i)]) == Frame(t, i);
  }

  /** The position of a key is the position of its entry in the listing. */
  lemma EntryAt(root: Node, st: Stack, t: Node)
    requires Good(root, false) && Chain(root, st, t)
    ensures CtxGood(st, false) && Good(t, false) && StackOk(st)
    ensures Rank(st) + |Entries(t)| <= |Entries(root)|
    ensures t.val.Some? ==> Rank(st) < |Entries(root)| && Entries(root)[Rank(st)] == Entry(Path(st), t.val.value)
  {
    EntriesCut(root, st, t);
    if t.val.Some? {
      assert Entries(t)[0] == Entry([], t.val.value);
      assert Prefixed(Path(st), Entries(t))[0] == Entry(Path(st) + [], t.val.value);
      assert Path(st) + [] == Path(st);
    }
  }

  // ---------------------------------------------------------------- what precedes and follows a string

  predicate AllLess(es: Listing, k: Key) {
    forall i | 0 <= i < |es| :: Less(es[i].key, k)
  }

  predicate AllSame(es: Listing, k: Key) {
    forall i | 0 <= i < |es| :: es[i].key == k
  }

  predicate AllGreater(es: Listing, k: Key) {
    forall i | 0 <= i < |es| :: Less(k, es[i].key)
  }

  lemma PrefixedSides(p: Key, es: Listing, x: Key)
    ensures AllLess(es, x) ==> AllLess(Prefixed(p, es), p + x)
    ensures AllGreater(es, x) ==> AllGreater(Prefixed(p, es), p + x)
  {
    forall i | 0 <= i < |es|
      ensures Less(p + es[i].key, p + x) == Less(es[i].key, x)
      ensures Less(p + x, p + es[i].key) == Less(x, es[i].key)
    {
      LessPrefix(p, es[i].key, x);
      LessPrefix(p, x, es[i].key);
    }
  }

  /** Under edges whose first bytes are smaller than the first byte of k. */
  lemma KidsLess(ls: seq<Key>, ks: seq<Node>, k: Key)
    requires |ls| == |ks| && (forall i | 0 <= i < |ks| :: Good(ks[i], false)) && AscendingEdges(ls)
    requires k != [] && forall i | 0 <= i < |ls| :: ls[i][0] < k[0]
    ensures AllLess(KidEntries(ls, ks), k)
  {
    var es := KidEntries(ls, ks);
    forall i | 0 <= i < |es| ensures Less(es[i].key, k) {
      KidEntriesFirst(ls, ks, es[i]);
    }
  }

  lemma KidsGreater(ls: seq<Key>, ks: seq<Node>, k: Key)
    requires |ls| == |ks| && (forall i | 0 <= i < |ks| :: Good(ks[i], false)) && AscendingEdges(ls)
    requires k != [] ==> forall i | 0 <= i < |ls| :: k[0] < ls[i][0]
    ensures AllGreater(KidEntries(ls, ks), k)
  {
    var es := KidEntries(ls, ks);
    forall i | 0 <= i < |es| ensures Less(k, es[i].key) {
      KidEntriesFirst(ls, ks, es[i]);
    }
  }

  lemma FrameSides(f: Frame, x: Key)
    requires FrameGood(f, false)
    ensures AllLess(FrameBefore(f), Step(f) + x) && AllGreater(FrameAfter(f), Step(f) + x)
  {
    var ls := Labels(f.node);
    assert AscendingEdges(ls);
    assert (Step(f) + x)[0] == ls[f.idx][0];
    var l := KidEntries(ls[..f.idx], f.node.kids[..f.idx]);
    assert AllLess(l, Step(f) + x) by {
      KidsLess(ls[..f.idx], f.node.kids[..f.idx], Step(f) + x);
    }
    OwnLess(f.node, l, Step(f) + x);
    KidsGreater(ls[f.idx + 1..], f.node.kids[f.idx + 1..], Step(f) + x);
  }

  lemma PrefixedFrameSides(p: Key, f: Frame, x: Key, k: Key)
    requires FrameGood(f, false) && k == p + (Step(f) + x)
    ensures AllLess(Prefixed(p, FrameBefore(f)), k) && AllGreater(Prefixed(p, FrameAfter(f)), k)
  {
    FrameSides(f, x);
    PrefixedSides(p, FrameBefore(f), Step(f) + x);
    PrefixedSides(p, FrameAfter(f), Step(f) + x);
  }

  lemma SidesConcat(a: Listing, b: Listing, k: Key)
    ensures AllLess(a, k) && AllLess(b, k) ==> AllLess(a + b, k)
    ensures AllGreater(a, k) && AllGreater(b, k) ==> AllGreater(a + b, k)
  {
  }

  /** Everything listed before a position precedes every string that continues the path. */
  lemma {:induction false} Sides(st: Stack, x: Key)
    requires CtxGood(st, false)
    ensures StackOk(st) && AllLess(Before(st), Path(st) + x) && AllGreater(After(st), Path(st) + x)
  {
    CtxGoodStackOk(st, false);
    if st != [] {
      var f, p := Top(st), Path(Init(st));
      assert Path(st) + x == p + (Step(f) + x);
      Sides(Init(st), Step(f) + x);
      PrefixedFrameSides(p, f, x, Path(st) + x);
      SidesConcat(Before(Init(st)), Prefixed(p, FrameBefore(f)), Path(st) + x);
      SidesConcat(Prefixed(p, FrameAfter(f)), After(Init(st)), Path(st) + x);
    }
  }

  /** The entries before lo are smaller than k, those from hi on are greater, those between are k. */
  ghost predicate Splits(es: Listing, lo: nat, hi: nat, k: Key) {
    var split := lo <= hi <= |es| && AllLess(es[..lo], k) && AllSame(es[lo..hi], k) && AllGreater(es[hi..], k);
    split
  }

  lemma SplitsPrefixed(p: Key, es: Listing, lo: nat, hi: nat, r: Key)
    requires Splits(es, lo, hi, r)
    ensures Splits(Prefixed(p, es), lo, hi, p + r)
  {
    PrefixedSides(p, es[..lo], r);
    PrefixedSides(p, es[hi..], r);
    assert Prefixed(p, es[..lo]) == Prefixed(p, es)[..lo] && Prefixed(p, es[hi..]) == Prefixed(p, es)[hi..];
    assert Prefixed(p, es[lo..hi]) == Prefixed(p, es)[lo..hi];
  }

  lemma SplitsUnder(es: Listing, b: Listing, a: Listing, n: nat, p: Key, below: Listing, lo: nat, hi: nat, r: Key)
    requires es == b + Prefixed(p, below) + a && n == |b|
    requires AllLess(b, p + r) && AllGreater(a, p + r) && Splits(below, lo, hi, r)
    ensures Splits(es, n + lo, n + hi, p + r)
  {
    SplitsPrefixed(p, below, lo, hi, r);
    SplitsConcat(es, b, Prefixed(p, below), a, lo, hi, p + r);
  }

  /** A split of the listing below a position is one of the whole listing. */
  lemma SplitsOuter(es: Listing, st: Stack, below: Listing, lo: nat, hi: nat, r: Key)
    requires CtxGood(st, false) && StackOk(st) && es == Before(st) + Prefixed(Path(st), below) + After(st)
    requires Splits(below, lo, hi, r)
    ensures Splits(es, Rank(st) + lo, Rank(st) + hi, Path(st) + r)
  {
    hide *;
    RankIs(st);
    Sides(st, r);
    SplitsUnder(es, Before(st), After(st), Rank(st), Path(st), below, lo, hi, r);
  }

  lemma SplitsConcat(es: Listing, b: Listing, p: Listing, a: Listing, lo: nat, hi: nat, k: Key)
    requires es == b + p + a && AllLess(b, k) && AllGreater(a, k) && Splits(p, lo, hi, k)
    ensures Splits(es, |b| + lo, |b| + hi, k)
  {
    assert es[..|b| + lo] == b + p[..lo];
    assert es[|b| + hi..] == p[hi..] + a;
    assert es[|b| + lo..|b| + hi] == p[lo..hi];
  }

  // ---------------------------------------------------------------- where a walk stops

  /** r ends at the node itself. */
  lemma SplitsHere(t: Node)
    requires Good(t, false)
    ensures Splits(Entries(t), 0, |Own(t)|, [])
  {
    var ls := Labels(t);
    assert AscendingEdges(ls);
    KidsGreater(ls, t.kids, []);
    assert Entries(t)[|Own(t)|..] == KidEntries(ls, t.kids);
  }

  lemma SplitsAt(a: Listing, b: Listing, k: Key)
    requires AllLess(a, k) && AllGreater(b, k)
    ensures Splits(a + b, |a|, |a|, k)
  {
    assert (a + b)[..|a|] == a && (a + b)[|a|..] == b;
  }

  /** The first i children lie before r, the others behind it. */
  lemma SplitsBetween(t: Node, i: nat, r: Key)
    requires Good(t, false) && i <= |t.kids| && r != []
    requires AllLess(KidEntries(Labels(t)[..i], t.kids[..i]), r)
    requires AllGreater(KidEntries(Labels(t)[i..], t.kids[i..]), r)
    ensures Splits(Entries(t), |Own(t)| + KidCount(t, i), |Own(t)| + KidCount(t, i), r)
  {
    var l, g := KidEntries(Labels(t)[..i], t.kids[..i]), KidEntries(Labels(t)[i..], t.kids[i..]);
    EntriesHalves(t, i);
    OwnLess(t, l, r);
    SplitsAt(Own(t) + l, g, r);
  }

  lemma EntriesHalves(t: Node, i: nat)
    requires Good(t, false) && i <= |t.kids|
    ensures Entries(t) ==
            (Own(t) + KidEntries(Labels(t)[..i], t.kids[..i])) + KidEntries(Labels(t)[i..], t.kids[i..])
  {
    var ls := Labels(t);
    assert ls == ls[..i] + ls[i..] && t.kids == t.kids[..i] + t.kids[i..];
    KidEntriesConcat(ls[..i], t.kids[..i], ls[i..], t.kids[i..]);
  }

  lemma OwnLess(t: Node, l: Listing, r: Key)
    requires r != [] && AllLess(l, r)
    ensures AllLess(Own(t) + l, r)
  {
  }

  lemma KidsSides(t: Node, i: nat, r: Key)
    requires Good(t, false) && r != [] && i <= |t.kids|
    requires forall j | 0 <= j < i :: Label(t, j)[0] < r[0]
    requires forall j | i <= j < |t.kids| :: r[0] < Label(t, j)[0]
    ensures AllLess(KidEntries(Labels(t)[..i], t.kids[..i]), r)
    ensures AllGreater(KidEntries(Labels(t)[i..], t.kids[i..]), r)
  {
    var ls := Labels(t);
    assert AscendingEdges(ls);
    KidsLess(ls[..i], t.kids[..i], r);
    KidsGreater(ls[i..], t.kids[i..], r);
  }

  lemma SplitsPlain(t: Node, r: Key)
    requires Good(t, false) && !t.compr && r != [] && r[0] !in t.chars
    ensures var i := InsertPos(t.chars, r[0]);
            Splits(Entries(t), |Own(t)| + KidCount(t, i), |Own(t)| + KidCount(t, i), r)
  {
    var i := InsertPos(t.chars, r[0]);
    forall j | 0 <= j < i ensures Label(t, j)[0] < r[0] { assert t.chars[j] in t.chars; }
    KidsSides(t, i, r);
    SplitsBetween(t, i, r);
  }

  /** All entries below an edge share the string of the edge. */
  lemma {:induction false} OneKidSides(t: Node, r: Key)
    requires Good(t, false) && t.compr
    ensures var es := KidEntries(Labels(t), t.kids);
            var x := Prefixed(t.chars, Entries(t.kids[0]));
            es == x
  {
    assert Labels(t) == [t.chars] && t.kids == [t.kids[0]];
    assert Labels(t)[1..] == [] && t.kids[1..] == [];
  }

  lemma CompressedSides(es: Listing, l: Key, below: Listing, r: Key, sp: nat)
    requires es == Prefixed(l, below) && sp < |l| && l[..sp] <= r && (sp < |r| ==> r[sp] != l[sp])
    ensures if sp < |r| && l[sp] < r[sp] then AllLess(es, r) else AllGreater(es, r)
  {
    forall j | 0 <= j < |es|
      ensures if sp < |r| && l[sp] < r[sp] then Less(es[j].key, r) else Less(r, es[j].key)
    {
      var rest := l[sp..] + below[j].key;
      assert es[j].key == l[..sp] + rest;
      assert r == l[..sp] + r[sp..];
      LessPrefix(l[..sp], rest, r[sp..]);
      LessPrefix(l[..sp], r[sp..], rest);
    }
  }

  lemma OneKidSlices(t: Node)
    requires Good(t, false) && |t.kids| == 1
    ensures Labels(t)[..1] == Labels(t) == Labels(t)[0..] && t.kids[..1] == t.kids == t.kids[0..]
    ensures Labels(t)[..0] == [] == Labels(t)[1..] && t.kids[..0] == [] == t.kids[1..]
  {
  }

  /** r leaves the compressed string before byte sp: it ends there or goes on with another byte. */
  lemma SplitsCompressed(t: Node, r: Key, sp: nat)
    requires Good(t, false) && t.compr && sp < |t.chars| && r != []
    requires t.chars[..sp] <= r && (sp < |r| ==> r[sp] != t.chars[sp])
    ensures var i := if sp < |r| && t.chars[sp] < r[sp] then 1 else 0;
            Splits(Entries(t), |Own(t)| + KidCount(t, i), |Own(t)| + KidCount(t, i), r)
  {
    OneKidSides(t, r);
    CompressedSides(KidEntries(Labels(t), t.kids), t.chars, Entries(t.kids[0]), r, sp);
    OneKidSlices(t);
    SplitsBetween(t, if sp < |r| && t.chars[sp] < r[sp] then 1 else 0, r);
  }
}
