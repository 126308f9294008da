/** What the edits of a removal do to the tree as a value: reclaiming nodes that no longer
    lead to a key, and merging chains of single-child nodes. */
module RaxRemoval {
  import opened Wrappers
  import opened Bytes
  import opened RaxTree
  import opened RaxZipper
  import opened RaxEdit

  /** Below the hole the tree held no key but s; the context holds all the other keys. */
  ghost predicate Vacated(t: Node, st: Stack, s: Key) {
    && Good(t, false) && CtxGood(st, false) && StackOk(st) && Good(Plug(st, KEY_LEAF), false)
    && Path(st) <= s
    && (forall k | !(Path(st) <= k) :: Lookup(Plug(st, KEY_LEAF), k) == Lookup(t, k))
    && forall k | Path(st) <= k && k != s :: Lookup(t, k) == None
  }

  lemma VacatedStart(t: Node, st: Stack, h: Node)
    requires Good(t, false) && Chain(t, st, h) && h.kids == []
    ensures StackOk(st) && Vacated(t, st, Path(st))
  {
    PendingStart(t, st, h);
    forall k | Path(st) <= k && k != Path(st) ensures Lookup(t, k) == None {
      assert k == Path(st) + k[|Path(st)|..];
      assert Lookup(t, Path(st) + k[|Path(st)|..]) == Lookup(h, k[|Path(st)|..]);
    }
  }

  /** A parent that is not a key and has no other child goes as well. */
  lemma VacatedUp(t: Node, st: Stack, s: Key)
    requires st != [] && Vacated(t, st, s) && Mergeable(Top(st).node)
    ensures Vacated(t, Init(st), s)
  {
    var f, up := Top(st), Init(st);
    assert Fits(up, f.node, false) && !Hollow(SetChild(f, KEY_LEAF));
    PlugGood(up, KEY_LEAF, false);
    CtxStep(st, KEY_LEAF, false);
    forall k | !(Path(up) <= k) ensures Lookup(Plug(up, KEY_LEAF), k) == Lookup(t, k) {
      PlugOutside(up, KEY_LEAF, SetChild(f, KEY_LEAF), k);
      PrefixSplit(Path(up), Step(f), k);
    }
    forall k | Path(up) <= k && k != s ensures Lookup(t, k) == None {
      if !(Path(st) <= k) {
        var r := k[|Path(up)|..];
        assert k == Path(up) + r;
        PrefixSplit(Path(up), Step(f), k);
        PlugInside(up, SetChild(f, KEY_LEAF), r);
      }
    }
  }

  function RemoveChild(n: Node, i: nat): Node
    requires i < |n.kids| && (n.compr || |n.chars| == |n.kids|)
  {
    if n.compr then Node(n.val, false, [], [])
    else Node(n.val, n.compr, RemoveAt(n.chars, i), RemoveAt(n.kids, i))
  }

  lemma RemoveChildGood(f: Frame)
    requires FrameGood(f, false)
    ensures Good(RemoveChild(f.node, f.idx), false)
  {
    var n := RemoveChild(f.node, f.idx);
    forall i | 0 <= i < |n.kids| ensures Good(n.kids[i], false) && Hangs(n, n.kids[i], false) {
      assert n.kids[i] == f.node.kids[if i < f.idx then i else i + 1];
    }
  }

  /** Taking a byte out shifts the edges behind it. */
  lemma {:induction false} IndexUnshift(cs: Key, p: nat, b: Byte)
    requires p < |cs| && b != cs[p]
    ensures IndexOf(RemoveAt(cs, p), b) == IndexOf(cs, b) - if IndexOf(cs, b) < p then 0 else 1
  {
    var r := RemoveAt(cs, p);
    if p == 0 {
      assert r == cs[1..];
    } else {
      assert r[1..] == RemoveAt(cs[1..], p - 1);
      IndexUnshift(cs[1..], p - 1, b);
    }
  }

  lemma RemoveChildEdge(f: Frame, r: Key)
    requires FrameGood(f, false) && !f.node.compr && r != [] && r[0] != f.node.chars[f.idx]
    requires Good(RemoveChild(f.node, f.idx), false) && Good(SetChild(f, KEY_LEAF), false)
    ensures Lookup(RemoveChild(f.node, f.idx), r) == Lookup(SetChild(f, KEY_LEAF), r)
  {
    var n, m := RemoveChild(f.node, f.idx), SetChild(f, KEY_LEAF);
    hide Lookup, Hangs;
    IndexUnshift(m.chars, f.idx, r[0]);
    SameChild(m, n, r);
  }

  lemma SameChild(m: Node, n: Node, r: Key)
    requires Good(m, false) && Good(n, false) && !m.compr && !n.compr && r != []
    requires Edge(m, r) < |m.kids| <==> Edge(n, r) < |n.kids|
    requires Edge(m, r) < |m.kids| ==> m.kids[Edge(m, r)] == n.kids[Edge(n, r)]
    ensures Lookup(m, r) == Lookup(n, r)
  {
  }

  lemma RemoveChildLookup(f: Frame, r: Key)
    requires FrameGood(f, false) && Good(RemoveChild(f.node, f.idx), false) && Good(SetChild(f, KEY_LEAF), false)
    ensures Lookup(RemoveChild(f.node, f.idx), r) ==
            if Step(f) <= r then None else Lookup(SetChild(f, KEY_LEAF), r)
  {
    if !f.node.compr && r != [] {
      var cs := f.node.chars;
      if r[0] != cs[f.idx] {
        RemoveChildEdge(f, r);
      } else {
        forall j | 0 <= j < |cs| - 1 ensures RemoveAt(cs, f.idx)[j] != r[0] {
          assert RemoveAt(cs, f.idx)[j] == cs[if j < f.idx then j else j + 1];
        }
        assert Edge(RemoveChild(f.node, f.idx), r) == |f.node.kids| - 1;
      }
    }
  }

  lemma VacatedParent(t: Node, st: Stack, s: Key)
    requires st != [] && Vacated(t, st, s)
    requires var n := RemoveChild(Top(st).node, Top(st).idx); Hollow(n) ==> Init(st) == []
    ensures var n := RemoveChild(Top(st).node, Top(st).idx);
            Good(n, false) && Fits(Init(st), n, false) && Good(Plug(Init(st), n), false)
  {
    RemoveChildGood(Top(st));
    PlugGood(Init(st), RemoveChild(Top(st).node, Top(st).idx), false);
  }

  /** Unlinking the vacated child leaves the tree without the key s and otherwise unchanged. */
  lemma VacatedDone(t: Node, st: Stack, s: Key, n: Node, k: Key)
    requires st != [] && Vacated(t, st, s) && n == RemoveChild(Top(st).node, Top(st).idx)
    requires Good(n, false) && Fits(Init(st), n, false) && Good(Plug(Init(st), n), false)
    ensures Lookup(Plug(Init(st), n), k) == if k == s then None else Lookup(t, k)
  {
    var f, up := Top(st), Init(st);
    var m := SetChild(f, KEY_LEAF);
    CtxStep(st, KEY_LEAF, false);
    assert Plug(up, m) == Plug(st, KEY_LEAF);
    PrefixSplit(Path(up), Step(f), k);
    PrefixSplit(Path(up), Step(f), s);
    if Path(up) <= k {
      var r := k[|Path(up)|..];
      assert k == Path(up) + r;
      PlugInside(up, n, r);
      RemoveChildLookup(f, r);
      PlugInside(up, m, r);
    } else {
      PlugOutside(up, n, m, k);
    }
  }

  /** Clearing the value of a node with children. */
  lemma Unkeyed(t: Node, st: Stack, h: Node, k: Key)
    requires Good(t, false) && Chain(t, st, h) && h.kids != []
    ensures StackOk(st) && CtxGood(st, false)
    ensures var g := h.(val := None);
            Good(g, false) && Fits(st, g, false) && Good(Plug(st, g), false) &&
            Lookup(Plug(st, g), k) == if k == Path(st) then None else Lookup(t, k)
  {
    var g := h.(val := None);
    ChainGood(t, st, h, false);
    ChainPlug(t, st, h);
    UnkeyedNode(st, h);
    hide Plug, CtxGood, Fits, Chain, Good, Lookup, Path, StackOk;
    PlugGood(st, g, false);
    PlugLookup(st, g, h, k);
    if Path(st) <= k {
      var r := k[|Path(st)|..];
      assert k == Path(st) + r;
      PlugInside(st, h, r);
      UnkeyedLookup(h, r);
    }
  }

  lemma UnkeyedNode(st: Stack, h: Node)
    requires Good(h, false) && Fits(st, h, false) && h.kids != []
    ensures Good(h.(val := None), false) && Fits(st, h.(val := None), false)
  {
    forall i | 0 <= i < |h.kids| ensures Hangs(h.(val := None), h.kids[i], false) {
      assert Hangs(h, h.kids[i], false);
    }
  }

  lemma UnkeyedLookup(h: Node, r: Key)
    requires Good(h, false) && Good(h.(val := None), false)
    ensures Lookup(h.(val := None), r) == if r == [] then None else Lookup(h, r)
  {
  }

  // ---------------------------------------------------------------- merging single-child nodes

  /** A node that is no key and has one child is its string followed by the child. */
  lemma MergeableIsLink(n: Node)
    requires Good(n, false) && Mergeable(n)
    ensures n == Link(None, n.chars, n.kids[0]) && n.chars != [] && !Hollow(n.kids[0]) && Good(n.kids[0], false)
    ensures Label(n, 0) == n.chars
  {
    assert Hangs(n, n.kids[0], false);
  }

  lemma LinkLink(a: Key, b: Key, g: Node, k: Key)
    requires a != [] && b != [] && |a + b| <= NODE_MAX_SIZE && Good(g, false) && !Hollow(g)
    ensures Good(Link(None, b, g), false) && Good(Link(None, a, Link(None, b, g)), false)
    ensures Good(Link(None, a + b, g), false)
    ensures Lookup(Link(None, a, Link(None, b, g)), k) == Lookup(Link(None, a + b, g), k)
  {
    LinkLookup(None, b, g, []);
    LinkLookup(None, a, Link(None, b, g), k);
    LinkLookup(None, a + b, g, k);
    PrefixSplit(a, b, k);
    if a <= k {
      LinkLookup(None, b, g, k[|a|..]);
      if b <= k[|a|..] {
        assert k[|a|..][|b|..] == k[|a + b|..];
      }
    }
  }

  /** The bytes along the chain of nodes that can be merged into n. */
  function MergeText(n: Node): Key {
    if Mergeable(n) then n.chars + MergeText(n.kids[0]) else []
  }

  /** The first node of the chain that has to stay. */
  function MergeEnd(n: Node): Node {
    if Mergeable(n) then MergeEnd(n.kids[0]) else n
  }

  function MergeCount(n: Node): nat {
    if Mergeable(n) then 1 + MergeCount(n.kids[0]) else 0
  }

  lemma {:induction false} MergeEndGood(n: Node)
    requires Good(n, false) && !Hollow(n)
    ensures Good(MergeEnd(n), false) && !Hollow(MergeEnd(n)) && !Mergeable(MergeEnd(n))
    ensures Nodes(n) == MergeCount(n) + Nodes(MergeEnd(n))
  {
    if Mergeable(n) {
      MergeableIsLink(n);
      MergeEndGood(n.kids[0]);
      OneKidNodes(n);
    }
  }

  /** The chain spells its text: every key below n starts with it. */
  lemma {:induction false} MergeKey(n: Node) returns (k: Key)
    requires Good(n, false) && !Hollow(n)
    ensures MergeText(n) <= k && Lookup(n, k).Some?
  {
    if Mergeable(n) {
      MergeableIsLink(n);
      var r := MergeKey(n.kids[0]);
      LookupChild(n, 0, r);
      k := n.chars + r;
      assert MergeText(n) == n.chars + MergeText(n.kids[0]);
    } else {
      k := SomeKey(n);
    }
  }

  /** One compressed node above the end of the chain holds the same keys as the chain. */
  lemma {:induction false} MergeLookup(n: Node, k: Key)
    requires Good(n, false) && Mergeable(n) && |MergeText(n)| <= NODE_MAX_SIZE
    ensures MergeText(n) != [] && (MergeCount(n) > 1 ==> |MergeText(n)| > 1)
    ensures Good(Link(None, MergeText(n), MergeEnd(n)), false)
    ensures Lookup(Link(None, MergeText(n), MergeEnd(n)), k) == Lookup(n, k)
  {
    MergeableIsLink(n);
    var c := n.kids[0];
    assert !Hollow(n);
    MergeEndGood(n);
    LinkLookup(None, MergeText(n), MergeEnd(n), k);
    if Mergeable(c) {
      MergeLookup(c, k[if n.chars <= k then |n.chars| else 0..]);
      LinkLink(n.chars, MergeText(c), MergeEnd(c), k);
      LinkLookup(None, n.chars, Link(None, MergeText(c), MergeEnd(c)), k);
      LinkLookup(None, n.chars, c, k);
    } else {
      assert MergeText(n) == n.chars;
    }
  }

  /** Strings spelled inside the tree are prefixes of keys, so they are no longer than keys. */
  lemma MergeBound(t: Node, st: Stack, n: Node, bound: nat)
    requires CtxGood(st, false) && Good(n, false) && !Hollow(n) && Fits(st, n, false)
    requires StackOk(st) && t == Plug(st, n) && Good(t, false)
    requires forall k | Lookup(t, k).Some? :: |k| <= bound
    ensures |Path(st)| + |MergeText(n)| <= bound
  {
    var k := MergeKey(n);
    PlugInside(st, n, k);
    assert |Path(st) + k| <= bound;
  }

  lemma RemoveChildNodes(st: Stack)
    requires st != [] && StackOk(st)
    ensures CtxNodes(st) == CtxNodes(Init(st)) + Nodes(RemoveChild(Top(st).node, Top(st).idx))
  {
    var f := Top(st);
    var l, r := f.node.kids[..f.idx], f.node.kids[f.idx + 1..];
    SumNodesConcat(l, r);
    if f.node.compr {
      assert l == r == [];
    } else {
      assert RemoveAt(f.node.kids, f.idx) == l + r;
    }
  }

  /** t is t0 without s. */
  ghost predicate Removed(t0: Node, t: Node, s: Key) {
    && Good(t0, false) && Good(t, false)
    && forall k :: Lookup(t, k) == if k == s then None else Lookup(t0, k)
  }

  /** The tree around the position is t0 without s and has n nodes. */
  ghost predicate RemovedAt(t0: Node, st: Stack, h: Node, s: Key, n: int) {
    var good := CtxGood(st, false) && Good(h, false) && Fits(st, h, false) && StackOk(st);
    good && Removed(t0, Plug(st, h), s) && n == Nodes(Plug(st, h))
  }

  lemma UnlinkNodes(t0: Node, st: Stack, s: Key)
    requires st != [] && Vacated(t0, st, s)
    ensures StackOk(Init(st)) && Nodes(Plug(Init(st), RemoveChild(Top(st).node, Top(st).idx))) == CtxNodes(st)
  {
    CtxGoodStackOk(Init(st), false);
    RemoveChildNodes(st);
    PlugNodes(Init(st), RemoveChild(Top(st).node, Top(st).idx));
  }

  lemma RemovedByUnlink(t0: Node, st: Stack, s: Key)
    requires st != [] && Vacated(t0, st, s) && (Mergeable(Top(st).node) ==> Init(st) == [])
    ensures RemovedAt(t0, Init(st), RemoveChild(Top(st).node, Top(st).idx), s, CtxNodes(st))
  {
    assert Hollow(RemoveChild(Top(st).node, Top(st).idx)) ==> Mergeable(Top(st).node);
    VacatedParent(t0, st, s);
    VacatedRemoved(t0, st, s, RemoveChild(Top(st).node, Top(st).idx));
    UnlinkNodes(t0, st, s);
  }

  lemma VacatedRemoved(t0: Node, st: Stack, s: Key, n: Node)
    requires st != [] && Vacated(t0, st, s) && n == RemoveChild(Top(st).node, Top(st).idx)
    requires Good(n, false) && Fits(Init(st), n, false) && Good(Plug(Init(st), n), false)
    ensures Removed(t0, Plug(Init(st), n), s)
  {
    forall k ensures Lookup(Plug(Init(st), n), k) == if k == s then None else Lookup(t0, k) {
      VacatedDone(t0, st, s, n, k);
    }
  }

  lemma RemovedByUnkey(t0: Node, st: Stack, h: Node)
    requires Good(t0, false) && Chain(t0, st, h) && h.kids != []
    ensures StackOk(st) && RemovedAt(t0, st, h.(val := None), Path(st), Nodes(t0))
  {
    var g := h.(val := None);
    Unkeyed(t0, st, h, []);
    forall k ensures Lookup(Plug(st, g), k) == if k == Path(st) then None else Lookup(t0, k) {
      Unkeyed(t0, st, h, k);
    }
    ChainPlug(t0, st, h);
    PlugNodes(st, h);
    PlugNodes(st, g);
  }

  lemma RemovedUp(t0: Node, st: Stack, h: Node, s: Key, n: int)
    requires RemovedAt(t0, st, h, s, n) && st != []
    ensures RemovedAt(t0, Init(st), SetChild(Top(st), h), s, n)
  {
    CtxStep(st, h, false);
    CtxGoodStackOk(Init(st), false);
  }

  lemma RemovedBound(t0: Node, st: Stack, h: Node, s: Key, n: int)
    requires RemovedAt(t0, st, h, s, n) && Mergeable(h)
    requires ShortKeys(t0)
    ensures |MergeText(h)| <= NODE_MAX_SIZE
  {
    MergeBound(Plug(st, h), st, h, NODE_MAX_SIZE);
  }

  /** Replacing the chain by one compressed node changes no key. */
  lemma RemovedMerge(t0: Node, st: Stack, h: Node, s: Key, n: int)
    requires RemovedAt(t0, st, h, s, n) && Mergeable(h) && |MergeText(h)| <= NODE_MAX_SIZE
    ensures RemovedAt(t0, st, Link(None, MergeText(h), MergeEnd(h)), s, n - MergeCount(h) + 1)
  {
    var g := Link(None, MergeText(h), MergeEnd(h));
    MergeLookup(h, []);
    MergeEndGood(h);
    PlugGood(st, g, false);
    forall k ensures Lookup(Plug(st, g), k) == if k == s then None else Lookup(t0, k) {
      PlugLookup(st, g, h, k);
      if Path(st) <= k {
        var r := k[|Path(st)|..];
        assert k == Path(st) + r;
        MergeLookup(h, r);
        PlugInside(st, h, r);
      }
    }
    PlugNodes(st, g);
    PlugNodes(st, h);
    OneKidNodes(g);
  }

  /** The only key was in the root. */
  lemma RemovedRoot(t0: Node)
    requires Good(t0, false) && t0.kids == []
    ensures t0.(val := None) == EMPTY && RemovedAt(t0, [], EMPTY, [], 1)
  {
    forall k ensures Lookup(EMPTY, k) == if k == [] then None else Lookup(t0, k) {
    }
  }

  // ---------------------------------------------------------------- the size of a merged node

  /** The nodes that the first scan counts from n on, with size bytes counted before: it stops
      where the next node would not fit. */
  function CappedCount(n: Node, size: nat): nat {
    if Mergeable(n) && size + |n.chars| <= NODE_MAX_SIZE then 1 + CappedCount(n.kids[0], size + |n.chars|) else 0
  }

  function CappedSize(n: Node, size: nat): nat {
    if Mergeable(n) && size + |n.chars| <= NODE_MAX_SIZE then CappedSize(n.kids[0], size + |n.chars|) else size
  }

  /** The chain from n on does not fit a node, but its first two nodes do. */
  predicate Overlong(n: Node) {
    Mergeable(n) && Mergeable(n.kids[0]) && |n.chars| + |n.kids[0].chars| <= NODE_MAX_SIZE < |MergeText(n)|
  }

  lemma {:induction false} CappedFits(n: Node, size: nat)
    requires size <= NODE_MAX_SIZE
    ensures CappedSize(n, size) <= NODE_MAX_SIZE && CappedSize(n, size) <= size + |MergeText(n)|
    ensures CappedSize(n, size) == size + |MergeText(n)| <==> size + |MergeText(n)| <= NODE_MAX_SIZE
    ensures size + |MergeText(n)| <= NODE_MAX_SIZE ==> CappedCount(n, size) == MergeCount(n)
    decreases n
  {
    if Mergeable(n) {
      if size + |n.chars| <= NODE_MAX_SIZE {
        CappedFits(n.kids[0], size + |n.chars|);
      }
    }
  }

  /** The second scan, which knows no cap, writes more bytes than were allocated for the merged
      node exactly when the chain is overlong. */
  lemma ScansDiffer(n: Node)
    requires Good(n, false) && Mergeable(n)
    ensures CappedCount(n.kids[0], |n.chars|) > 0 && CappedSize(n.kids[0], |n.chars|) < |MergeText(n)| <==> Overlong(n)
    ensures CappedCount(n.kids[0], |n.chars|) > 0 && !Overlong(n) ==>
              |MergeText(n)| <= NODE_MAX_SIZE && CappedSize(n.kids[0], |n.chars|) == |MergeText(n)| &&
              1 + CappedCount(n.kids[0], |n.chars|) == MergeCount(n)
  {
    CappedFits(n.kids[0], |n.chars|);
  }

  /** Where the reclaiming loop stops. */
  function Reclaimed(st: Stack): (r: Stack)
    requires st != [] && StackOk(st)
    ensures r != [] && StackOk(r)
  {
    if Mergeable(Top(st).node) && Init(st) != [] then Reclaimed(Init(st)) else st
  }

  /** The node at which the climb for the recompression stops. */
  function Climbed(st: Stack, h: Node): Node
    requires StackOk(st)
  {
    if st == [] || !Mergeable(Top(st).node) then h else Climbed(Init(st), SetChild(Top(st), h))
  }

  /** What is left where the freed nodes are unlinked. */
  function Unlinked(st: Stack): Node
    requires st != [] && StackOk(st)
  {
    RemoveChild(Top(Reclaimed(st)).node, Top(Reclaimed(st)).idx)
  }

  /** Removing a leaf merges an overlong chain. */
  predicate LeafOverruns(st: Stack)
    requires st != [] && StackOk(st)
  {
    var n := Unlinked(st);
    |n.chars| == 1 && n.val.None? && Overlong(Climbed(Init(Reclaimed(st)), n))
  }

  /** Removing the key of h at the position makes the second scan overrun. */
  predicate Overruns(st: Stack, h: Node)
    requires StackOk(st)
  {
    if h.kids == [] then st != [] && LeafOverruns(st)
    else |h.chars| == 1 && Overlong(Climbed(st, h.(val := None)))
  }

  /** h is the node of the key s. */
  ghost predicate KeyAt(root: Node, st: Stack, h: Node, s: Key) {
    Chain(root, st, h) && StackOk(st) && Path(st) == s && h.val.Some?
  }

  /** Removing s merges no overlong chain. */
  ghost predicate RemovalFits(root: Node, s: Key) {
    forall st, h | KeyAt(root, st, h, s) :: !Overruns(st, h)
  }

  /** Every key fits a node. */
  ghost predicate ShortKeys(t: Node)
    requires Good(t, false)
  {
    forall k | Lookup(t, k).Some? :: |k| <= NODE_MAX_SIZE
  }

  lemma {:induction false} ClimbedRemoved(t0: Node, st: Stack, h: Node, s: Key, n: int) returns (st': Stack)
    requires RemovedAt(t0, st, h, s, n) && Mergeable(h)
    ensures StackOk(st) && RemovedAt(t0, st', Climbed(st, h), s, n) && Mergeable(Climbed(st, h))
    decreases |st|
  {
    CtxGoodStackOk(st, false);
    if st == [] || !Mergeable(Top(st).node) {
      st' := st;
    } else {
      RemovedUp(t0, st, h, s, n);
      st' := ClimbedRemoved(t0, Init(st), SetChild(Top(st), h), s, n);
    }
  }

  lemma {:induction false} ReclaimedVacated(t: Node, st: Stack, s: Key)
    requires st != [] && StackOk(st) && Vacated(t, st, s)
    ensures Vacated(t, Reclaimed(st), s)
    ensures var r := Reclaimed(st); Mergeable(Top(r).node) ==> Init(r) == []
  {
    if Mergeable(Top(st).node) && Init(st) != [] {
      VacatedUp(t, st, s);
      ReclaimedVacated(t, Init(st), s);
    }
  }

  /** Keys that fit a node leave a chain that fits a node. */
  lemma ChainFits(t0: Node, st: Stack, h: Node, s: Key, n: int)
    requires RemovedAt(t0, st, h, s, n) && Mergeable(h) && ShortKeys(t0)
    ensures StackOk(st) && |MergeText(Climbed(st, h))| <= NODE_MAX_SIZE
  {
    var st' := ClimbedRemoved(t0, st, h, s, n);
    RemovedBound(t0, st', Climbed(st, h), s, n);
  }

  /** The tree around what is left where the freed nodes are unlinked. */
  lemma UnlinkedRemoved(t0: Node, st: Stack, h: Node)
    requires Good(t0, false) && Chain(t0, st, h) && StackOk(st) && h.kids == [] && st != []
    ensures RemovedAt(t0, Init(Reclaimed(st)), Unlinked(st), Path(st), CtxNodes(Reclaimed(st)))
    ensures !Unlinked(st).compr && |Unlinked(st).chars| == |Unlinked(st).kids|
  {
    VacatedStart(t0, st, h);
    ReclaimedVacated(t0, st, Path(st));
    RemovedByUnlink(t0, Reclaimed(st), Path(st));
  }

  /** Keys that fit a node make no overlong chains. */
  lemma KeysFit(t0: Node, st: Stack, h: Node)
    requires Good(t0, false) && Chain(t0, st, h) && StackOk(st) && ShortKeys(t0)
    ensures !Overruns(st, h)
  {
    if h.kids != [] {
      RemovedByUnkey(t0, st, h);
      ChainGood(t0, st, h, false);
      if |h.chars| == 1 {
        ChainFits(t0, st, h.(val := None), Path(st), Nodes(t0));
      }
    } else if st != [] {
      UnlinkedRemoved(t0, st, h);
      if Mergeable(Unlinked(st)) {
        ChainFits(t0, Init(Reclaimed(st)), Unlinked(st), Path(st), CtxNodes(Reclaimed(st)));
      }
    }
  }

  lemma ShortKeysFit(t: Node, s: Key)
    requires Good(t, false) && ShortKeys(t)
    ensures RemovalFits(t, s)
  {
    forall st, h | KeyAt(t, st, h, s) ensures !Overruns(st, h) {
      KeysFit(t, st, h);
    }
  }

  const LEAF_NODE: Node := Node(Some(1), false, [], [])

  function Tail(l: Key): Node { Node(None, true, l, [LEAF_NODE]) }

  function Fork(l: Key): Node { Node(None, false, [98, 99], [LEAF_NODE, Tail(l)]) }

  /** The keys "ab" and "ac" with the bytes of l behind it. */
  function Forked(l: Key): Node { Node(None, false, [97], [Fork(l)]) }

  /** One key of NODE_MAX_SIZE + 1 bytes is enough: when "ab" goes, the nodes of the other key are
      merged, and the second scan writes one byte more than the first one allowed. */
  lemma LongKeyOverruns(l: Key)
    requires |l| == NODE_MAX_SIZE - 1
    ensures var st := [Frame(Forked(l), 0), Frame(Fork(l), 0)];
            && Good(Forked(l), true) && Chain(Forked(l), st, LEAF_NODE) && StackOk(st) && Path(st) == [97, 98]
            && Overruns(st, LEAF_NODE) && !RemovalFits(Forked(l), [97, 98])
  {
    hide Good, Tail, Fork, Forked, Overlong, Climbed, Reclaimed, Unlinked, Chain, Path, StackOk;
    ForkedGood(l);
    ForkedStack(l);
    ForkedMerge(l);
  }

  lemma ForkedGood(l: Key)
    requires |l| == NODE_MAX_SIZE - 1
    ensures Good(Forked(l), true)
  {
    assert Good(LEAF_NODE, true);
    assert Good(Tail(l), true);
    assert Good(Fork(l), true);
  }

  lemma TwoFrames(f: Frame, g: Frame)
    requires FrameOk(f) && FrameOk(g) && Child(f) == g.node
    ensures Init([f, g]) == [f] && Top([f, g]) == g && StackOk([f, g])
    ensures Path([f, g]) == Step(f) + Step(g) && Chain(f.node, [f, g], Child(g))
  {
    assert [f] + [g] == [f, g] && [] + [f] == [f];
    assert Path([]) == [];
    PushStack([], f, g.node);
    PushStack([f], g, Child(g));
  }

  lemma ForkedStack(l: Key)
    ensures var st := [Frame(Forked(l), 0), Frame(Fork(l), 0)];
            && Init(st) == [Frame(Forked(l), 0)] && StackOk(st) && Path(st) == [97, 98]
            && Chain(Forked(l), st, LEAF_NODE) && Reclaimed(st) == st
            && Unlinked(st) == Node(None, false, [99], [Tail(l)])
  {
    hide Tail, Path, Chain, StackOk;
    TwoFrames(Frame(Forked(l), 0), Frame(Fork(l), 0));
  }

  lemma ForkedMerge(l: Key)
    requires |l| == NODE_MAX_SIZE - 1
    ensures StackOk([Frame(Forked(l), 0)])
    ensures Overlong(Climbed([Frame(Forked(l), 0)], Node(None, false, [99], [Tail(l)])))
  {
    var n := Node(None, false, [99], [Tail(l)]);
    var top := Node(None, false, [97], [n]);
    hide Fork;
    assert Init([Frame(Forked(l), 0)]) == [];
    assert SetChild(Frame(Forked(l), 0), n) == top;
    assert Climbed([Frame(Forked(l), 0)], n) == top;
    assert MergeText(LEAF_NODE) == [] && MergeText(Tail(l)) == l;
    assert MergeText(n) == [99] + l && MergeText(top) == [97] + ([99] + l);
  }
}
