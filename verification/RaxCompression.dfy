/** How compressed a removal leaves the tree: what the recompression makes of it, and for which
    removals no chain is left that could have been compressed. */
module RaxCompression {
  import opened Wrappers
  import opened Bytes
  import opened RaxTree
  import opened RaxZipper
  import opened RaxEdit
  import opened RaxRemoval

  // ---------------------------------------------------------------- the tree after a removal

  /** The two scans: a chain of several nodes becomes one node. */
  function Merged(n: Node): Node
    requires Mergeable(n)
  {
    if CappedCount(n.kids[0], |n.chars|) > 0 then Link(None, MergeText(n), MergeEnd(n)) else n
  }

  /** The climb to the start of the chain, and the scans from there. */
  function Recompressed(st: Stack, h: Node): Node
    requires StackOk(st) && Mergeable(h)
  {
    if st == [] || !Mergeable(Top(st).node) then Plug(st, Merged(h))
    else Recompressed(Init(st), SetChild(Top(st), h))
  }

  /** Only a plain node makes the removal try. */
  function Settled(st: Stack, n: Node): Node
    requires StackOk(st)
  {
    if !n.compr && Mergeable(n) then Recompressed(st, n) else Plug(st, n)
  }

  /** The tree without the key of h, the node at the position. */
  function WithoutKey(st: Stack, h: Node): Node
    requires StackOk(st)
  {
    if h.kids != [] then Settled(st, h.(val := None))
    else if st == [] then EMPTY
    else Settled(Init(Reclaimed(st)), Unlinked(st))
  }

  /** t is what the removal of s makes of t0. */
  ghost predicate IsWithout(t0: Node, s: Key, t: Node) {
    exists st, h :: KeyAt(t0, st, h, s) && t == WithoutKey(st, h)
  }

  // ---------------------------------------------------------------- the keys of the tree after a removal

  lemma {:induction false} RecompressedRemoved(t0: Node, st: Stack, h: Node, s: Key, n: int)
    requires RemovedAt(t0, st, h, s, n) && Mergeable(h) && StackOk(st) && !Overlong(Climbed(st, h))
    ensures Removed(t0, Recompressed(st, h), s)
    decreases |st|
  {
    if st == [] || !Mergeable(Top(st).node) {
      if CappedCount(h.kids[0], |h.chars|) > 0 {
        ScansDiffer(h);
        RemovedMerge(t0, st, h, s, n);
      }
    } else {
      RemovedUp(t0, st, h, s, n);
      RecompressedRemoved(t0, Init(st), SetChild(Top(st), h), s, n);
    }
  }

  /** Whatever is freed, unlinked and merged: the tree afterwards is a well-formed tree of the
      other keys. */
  lemma WithoutKeyRemoved(t0: Node, st: Stack, h: Node, s: Key)
    requires Good(t0, false) && KeyAt(t0, st, h, s) && !Overruns(st, h)
    ensures Removed(t0, WithoutKey(st, h), s)
  {
    ChainGood(t0, st, h, false);
    if h.kids != [] {
      RemovedByUnkey(t0, st, h);
      if !h.compr && |h.kids| == 1 {
        RecompressedRemoved(t0, st, h.(val := None), s, Nodes(t0));
      }
    } else if st == [] {
      RemovedRoot(t0);
    } else {
      UnlinkedRemoved(t0, st, h);
      if Mergeable(Unlinked(st)) {
        RecompressedRemoved(t0, Init(Reclaimed(st)), Unlinked(st), s, CtxNodes(Reclaimed(st)));
      }
    }
  }

  // ---------------------------------------------------------------- compressed trees

  /** n should not have a single child that is no key and has a single child itself: because it
      is no key either, or with keys whether it is a key or not. */
  predicate Absorbs(n: Node, keys: bool) {
    |n.kids| == 1 && (keys || n.val.None?)
  }

  /** No chain is left uncompressed. With keys this is all that maximal compression asks for,
      without keys it is what the documentation of the tree promises. */
  predicate Tight(n: Node, keys: bool) {
    forall i | 0 <= i < |n.kids| :: Tight(n.kids[i], keys) && !(Absorbs(n, keys) && Mergeable(n.kids[i]))
  }

  lemma {:induction false} TightGood(n: Node)
    requires Good(n, false)
    ensures Good(n, true) <==> Tight(n, true)
  {
    forall i | 0 <= i < |n.kids|
      ensures Good(n.kids[i], true) <==> Tight(n.kids[i], true)
      ensures Hangs(n, n.kids[i], true) <==> !(Absorbs(n, true) && Mergeable(n.kids[i]))
    {
      assert Hangs(n, n.kids[i], false);
      TightGood(n.kids[i]);
    }
  }

  lemma {:induction false} TightWeaken(n: Node)
    requires Tight(n, true)
    ensures Tight(n, false)
  {
    forall i | 0 <= i < |n.kids| ensures Tight(n.kids[i], false) {
      TightWeaken(n.kids[i]);
    }
  }

  /** h may stand below the stack without making a chain with its parent. */
  predicate TightAt(st: Stack, h: Node, keys: bool) {
    st != [] ==> !(Absorbs(Top(st).node, keys) && Mergeable(h))
  }

  /** No chain in the context. */
  predicate TightCtx(st: Stack, keys: bool) {
    st == [] ||
    (var n := Top(st).node;
     && (forall i | 0 <= i < |n.kids| && i != Top(st).idx :: Tight(n.kids[i], keys))
     && TightAt(Init(st), n, keys) && TightCtx(Init(st), keys))
  }

  lemma TightStep(f: Frame, h: Node, keys: bool)
    requires FrameIn(f)
    ensures Tight(SetChild(f, h), keys) <==>
            Tight(h, keys) && !(Absorbs(f.node, keys) && Mergeable(h)) &&
            forall i | 0 <= i < |f.node.kids| && i != f.idx :: Tight(f.node.kids[i], keys)
    ensures Absorbs(SetChild(f, h), keys) == Absorbs(f.node, keys) && Mergeable(SetChild(f, h)) == Mergeable(f.node)
  {
    var n := SetChild(f, h);
    assert n.kids[f.idx] == h && forall i | 0 <= i < |n.kids| && i != f.idx :: n.kids[i] == f.node.kids[i];
    if Tight(n, keys) {
      forall i | 0 <= i < |f.node.kids| && i != f.idx ensures Tight(f.node.kids[i], keys) {
        assert Tight(n.kids[i], keys);
      }
    }
  }

  /** A tree is tight when the context is, the subtree is, and they are together. */
  lemma {:induction false} PlugTight(st: Stack, h: Node, keys: bool)
    requires StackOk(st)
    ensures Tight(Plug(st, h), keys) <==> TightCtx(st, keys) && Tight(h, keys) && TightAt(st, h, keys)
  {
    if st != [] {
      TightStep(Top(st), h, keys);
      PlugTight(Init(st), SetChild(Top(st), h), keys);
    }
  }

  // ---------------------------------------------------------------- what the recompression leaves

  lemma {:induction false} MergeEndTight(n: Node, keys: bool)
    requires Tight(n, keys)
    ensures Tight(MergeEnd(n), keys)
  {
    if Mergeable(n) { MergeEndTight(n.kids[0], keys); }
  }

  lemma {:induction false} MergeEndStops(n: Node)
    ensures !Mergeable(MergeEnd(n))
  {
    if Mergeable(n) { MergeEndStops(n.kids[0]); }
  }

  /** A chain that fits a node is one node afterwards. */
  lemma MergedLink(n: Node)
    requires Good(n, false) && Mergeable(n) && |MergeText(n)| <= NODE_MAX_SIZE
    ensures Merged(n) == Link(None, MergeText(n), MergeEnd(n)) && Mergeable(Merged(n))
  {
    ScansDiffer(n);
    MergeableIsLink(n);
    CappedFits(n.kids[0], |n.chars|);
    if CappedCount(n.kids[0], |n.chars|) == 0 {
      assert MergeCount(n.kids[0]) == 0;
      assert !Mergeable(n.kids[0]);
      assert MergeText(n) == n.chars && MergeEnd(n) == n.kids[0];
    }
  }

  lemma MergedTight(n: Node, keys: bool)
    requires Good(n, false) && Mergeable(n) && |MergeText(n)| <= NODE_MAX_SIZE && Tight(MergeEnd(n), keys)
    ensures Tight(Merged(n), keys) && Mergeable(Merged(n))
  {
    MergedLink(n);
    MergeEndStops(n);
  }

  /** The node below the position may be merged into a key node above it only. */
  predicate Joins(st: Stack, keys: bool) {
    st == [] || !Absorbs(Top(st).node, keys) || Top(st).node.val.None?
  }

  /** The chain around h becomes one node, and it is a chain with its parent only if that is a
      key with a single child. */
  lemma {:induction false} RecompressedTight(st: Stack, h: Node, keys: bool)
    requires StackOk(st) && CtxGood(st, false) && Good(h, false) && Fits(st, h, false) && TightCtx(st, keys)
    requires Mergeable(h) && Tight(MergeEnd(h), keys) && |MergeText(Climbed(st, h))| <= NODE_MAX_SIZE
    ensures Tight(Recompressed(st, h), keys) <==> Joins(st, keys)
    decreases |st|
  {
    if st == [] || !Mergeable(Top(st).node) {
      MergedTight(h, keys);
      PlugTight(st, Merged(h), keys);
    } else {
      CtxStep(st, h, false);
      RecompressedTight(Init(st), SetChild(Top(st), h), keys);
    }
  }

  // ---------------------------------------------------------------- when the removal leaves no chain

  /** Unlinking the freed nodes leaves no chain. A key that is left with one child is not looked
      at; a chain is merged up to a key above it. */
  predicate LeafStaysTight(st: Stack, keys: bool)
    requires st != [] && StackOk(st)
  {
    var n := Unlinked(st);
    |n.kids| == 1 ==> if n.val.Some? then !(keys && Mergeable(n.kids[0])) else Joins(Init(Reclaimed(st)), keys)
  }

  /** Removing the key of h at the position leaves no chain: a condition on the tree before. */
  predicate StaysTight(st: Stack, h: Node, keys: bool)
    requires StackOk(st)
  {
    if h.kids == [] then st == [] || LeafStaysTight(st, keys)
    else |h.kids| == 1 ==>
      if h.compr then !Mergeable(h.kids[0]) && (st == [] || !Absorbs(Top(st).node, keys))
      else Joins(st, keys)
  }

  lemma KidsTight(n: Node, keys: bool)
    requires forall i | 0 <= i < |n.kids| :: Tight(n.kids[i], keys)
    ensures Tight(n, keys) <==> !(Absorbs(n, keys) && Mergeable(n.kids[0]))
    ensures Mergeable(n) ==> Tight(n.kids[0], keys) && MergeEnd(n) == MergeEnd(n.kids[0])
  {
  }

  /** n, which lost its key or a child, with the position above it. */
  lemma SettledTight(st: Stack, n: Node, keys: bool)
    requires StackOk(st) && CtxGood(st, false) && Good(n, false) && Fits(st, n, false) && TightCtx(st, keys)
    requires forall i | 0 <= i < |n.kids| :: Tight(n.kids[i], keys)
    requires !n.compr && Mergeable(n) ==> |MergeText(Climbed(st, n))| <= NODE_MAX_SIZE
    ensures Tight(Settled(st, n), keys) <==>
            if !n.compr && Mergeable(n) then Joins(st, keys)
            else !(Absorbs(n, keys) && Mergeable(n.kids[0])) && TightAt(st, n, keys)
  {
    KidsTight(n, keys);
    hide Good, CtxGood, Fits, Climbed, MergeText, Plug, Tight, TightCtx, Recompressed, Joins, MergeEnd;
    if !n.compr && Mergeable(n) {
      MergeEndTight(n.kids[0], keys);
      RecompressedTight(st, n, keys);
    } else {
      PlugTight(st, n, keys);
    }
  }

  lemma KeptTight(st: Stack, h: Node, keys: bool)
    requires StackOk(st) && CtxGood(st, false) && TightCtx(st, keys) && Tight(h, keys)
    requires h.kids != [] && Good(h.(val := None), false) && Fits(st, h.(val := None), false)
    requires |h.kids| == 1 && !h.compr ==> |MergeText(Climbed(st, h.(val := None)))| <= NODE_MAX_SIZE
    requires h.compr ==> |h.kids| == 1
    ensures Tight(WithoutKey(st, h), keys) <==> StaysTight(st, h, keys)
  {
    assert forall i | 0 <= i < |h.kids| :: Tight(h.kids[i], keys);
    hide Good, CtxGood, Fits, Climbed, MergeText, Tight, TightCtx, Settled;
    SettledTight(st, h.(val := None), keys);
  }

  lemma {:induction false} ReclaimedCtx(st: Stack, keys: bool)
    requires st != [] && StackOk(st) && TightCtx(st, keys)
    ensures TightCtx(Reclaimed(st), keys)
  {
    if Mergeable(Top(st).node) && Init(st) != [] { ReclaimedCtx(Init(st), keys); }
  }

  lemma UnlinkedTight(st: Stack, keys: bool)
    requires st != [] && StackOk(st) && TightCtx(Reclaimed(st), keys)
    ensures TightCtx(Init(Reclaimed(st)), keys)
    ensures forall i | 0 <= i < |Unlinked(st).kids| :: Tight(Unlinked(st).kids[i], keys)
  {
    var f, n := Top(Reclaimed(st)), Unlinked(st);
    forall i | 0 <= i < |n.kids| ensures Tight(n.kids[i], keys) {
      assert n.kids[i] == f.node.kids[if i < f.idx then i else i + 1];
    }
  }

  lemma FreedTight(st: Stack, keys: bool)
    requires st != [] && StackOk(st) && TightCtx(st, keys)
    requires var up, n := Init(Reclaimed(st)), Unlinked(st);
             && CtxGood(up, false) && Good(n, false) && Fits(up, n, false)
             && (Mergeable(n) ==> |MergeText(Climbed(up, n))| <= NODE_MAX_SIZE)
    ensures Tight(Settled(Init(Reclaimed(st)), Unlinked(st)), keys) <==> LeafStaysTight(st, keys)
  {
    ReclaimedCtx(st, keys);
    UnlinkedTight(st, keys);
    assert !Unlinked(st).compr;
    hide Good, CtxGood, Fits, Climbed, MergeText, Tight, TightCtx, Settled, Reclaimed, Unlinked;
    SettledTight(Init(Reclaimed(st)), Unlinked(st), keys);
  }

  /** When all keys fit a node, a removal leaves a tree without chains as it was, exactly under the
      condition. */
  lemma TightExactly(t0: Node, st: Stack, h: Node, s: Key, keys: bool)
    requires Good(t0, false) && ShortKeys(t0) && Tight(t0, keys) && KeyAt(t0, st, h, s)
    ensures Tight(WithoutKey(st, h), keys) <==> StaysTight(st, h, keys)
  {
    ChainPlug(t0, st, h);
    ChainGood(t0, st, h, false);
    PlugTight(st, h, keys);
    hide Good, Tight, TightCtx, TightAt, Plug, Lookup, Chain, Path, Settled, Climbed, MergeText, Removed, ShortKeys;
    if h.kids != [] {
      KeptFits(t0, st, h);
      KeptTight(st, h, keys);
    } else if st != [] {
      UnlinkedRemoved(t0, st, h);
      if Mergeable(Unlinked(st)) {
        ChainFits(t0, Init(Reclaimed(st)), Unlinked(st), s, CtxNodes(Reclaimed(st)));
      }
      FreedTight(st, keys);
    } else {
      EmptyTight(keys);
    }
  }

  lemma EmptyTight(keys: bool)
    ensures Tight(EMPTY, keys)
  {
  }

  lemma KeptFits(t0: Node, st: Stack, h: Node)
    requires Good(t0, false) && ShortKeys(t0) && Chain(t0, st, h) && StackOk(st) && h.kids != []
    ensures CtxGood(st, false) && Good(h.(val := None), false) && Fits(st, h.(val := None), false)
    ensures h.compr ==> |h.kids| == 1
    ensures |h.kids| == 1 && !h.compr ==> |MergeText(Climbed(st, h.(val := None)))| <= NODE_MAX_SIZE
  {
    RemovedByUnkey(t0, st, h);
    if |h.kids| == 1 && !h.compr {
      ChainFits(t0, st, h.(val := None), Path(st), Nodes(t0));
    }
  }

  /** No chain is left by the removal of s. */
  ghost predicate StaysCompressed(t0: Node, s: Key, keys: bool) {
    forall st, h | KeyAt(t0, st, h, s) :: StaysTight(st, h, keys)
  }

  /** Maximal compression, and the promise that no node that is no key and has a single child has
      another such node below it, survive exactly the removals that leave no chain. */
  lemma CompressedExactly(t0: Node, s: Key, t: Node)
    requires Good(t0, false) && ShortKeys(t0) && Good(t, false) && IsWithout(t0, s, t)
    ensures Good(t0, true) ==> (Good(t, true) <==> StaysCompressed(t0, s, true))
    ensures Tight(t0, false) ==> (Tight(t, false) <==> StaysCompressed(t0, s, false))
  {
    var st, h :| KeyAt(t0, st, h, s) && t == WithoutKey(st, h);
    forall a, g | KeyAt(t0, a, g, s) ensures a == st && g == h {
      OnePosition(t0, a, g, st, h);
    }
    TightGood(t0);
    TightGood(t);
    if Tight(t0, true) { TightExactly(t0, st, h, s, true); }
    if Tight(t0, false) { TightExactly(t0, st, h, s, false); }
  }

  // ---------------------------------------------------------------- removals that leave a chain

  /** No string through the tree is longer than d. */
  predicate Spans(n: Node, d: nat)
    requires Good(n, false)
  {
    forall i | 0 <= i < |n.kids| :: |Label(n, i)| <= d && Spans(n.kids[i], d - |Label(n, i)|)
  }

  lemma {:induction false} SpansKeys(n: Node, d: nat, k: Key)
    requires Good(n, false) && Spans(n, d) && Lookup(n, k).Some?
    ensures |k| <= d
    decreases n
  {
    if k != [] {
      var i := Edge(n, k);
      assert |Label(n, i)| <= d && Spans(n.kids[i], d - |Label(n, i)|);
      SpansKeys(n.kids[i], d - |Label(n, i)|, k[|Label(n, i)|..]);
    }
  }

  lemma SpansShort(n: Node, d: nat)
    requires Good(n, false) && Spans(n, d) && d <= NODE_MAX_SIZE
    ensures ShortKeys(n)
  {
    forall k | Lookup(n, k).Some? ensures |k| <= NODE_MAX_SIZE {
      SpansKeys(n, d, k);
    }
  }

  lemma OneFrame(n: Node, i: nat)
    requires Format(n) && i < |n.kids|
    ensures var st := [Frame(n, i)];
            Init(st) == [] && Top(st) == st[0] && StackOk(st) && Path(st) == Label(n, i) && Chain(n, st, n.kids[i])
  {
    assert Path([]) == [];
    PushStack([], Frame(n, i), n.kids[i]);
    assert [] + [Frame(n, i)] == [Frame(n, i)];
  }

  const BC_NODE: Node := Node(Some(1), true, [98, 99], [LEAF_NODE])

  /** The keys "a" and "abc". */
  const COMPRESSED_KEY: Node := Node(None, false, [97], [BC_NODE])

  /** The node of "a" is compressed: it is not merged into the node above it. */
  lemma CompressedKeyLeavesChain()
    ensures Good(COMPRESSED_KEY, true) && Good(COMPRESSED_KEY, false) && ShortKeys(COMPRESSED_KEY)
    ensures var st := [Frame(COMPRESSED_KEY, 0)];
            KeyAt(COMPRESSED_KEY, st, BC_NODE, [97]) &&
            !Tight(WithoutKey(st, BC_NODE), false) && !Tight(WithoutKey(st, BC_NODE), true)
  {
    hide *;
    CompressedKeyGood();
    CompressedKeyStack();
    LeavesChain(COMPRESSED_KEY, [Frame(COMPRESSED_KEY, 0)], BC_NODE, [97], false);
    LeavesChain(COMPRESSED_KEY, [Frame(COMPRESSED_KEY, 0)], BC_NODE, [97], true);
  }

  lemma CompressedKeyGood()
    ensures Good(COMPRESSED_KEY, true) && Good(COMPRESSED_KEY, false) && ShortKeys(COMPRESSED_KEY)
  {
    assert Good(LEAF_NODE, true) && Good(BC_NODE, true) && Good(COMPRESSED_KEY, true);
    GoodWeaken(LEAF_NODE);
    GoodWeaken(BC_NODE);
    GoodWeaken(COMPRESSED_KEY);
    assert Spans(LEAF_NODE, 0) && Spans(BC_NODE, 2) && Spans(COMPRESSED_KEY, 3);
    SpansShort(COMPRESSED_KEY, 3);
  }

  lemma CompressedKeyStack()
    ensures var st := [Frame(COMPRESSED_KEY, 0)];
            && KeyAt(COMPRESSED_KEY, st, BC_NODE, [97])
            && !StaysTight(st, BC_NODE, false) && !StaysTight(st, BC_NODE, true)
  {
    OneFrame(COMPRESSED_KEY, 0);
  }

  lemma LeavesChain(t0: Node, st: Stack, h: Node, s: Key, keys: bool)
    requires Good(t0, true) && Good(t0, false) && ShortKeys(t0) && KeyAt(t0, st, h, s) && !StaysTight(st, h, keys)
    ensures !Tight(WithoutKey(st, h), keys)
  {
    TightGood(t0);
    TightWeaken(t0);
    TightExactly(t0, st, h, s, keys);
  }

  const Y_NODE: Node := Node(Some(2), false, [121], [LEAF_NODE])

  /** The keys "", "x" and "xy". */
  const KEY_ABOVE: Node := Node(Some(1), false, [120], [Y_NODE])

  /** Below a key nothing is merged: without "x" the root has a single child that is no key and
      has a single child. */
  lemma KeyAboveLeavesChain()
    ensures Good(KEY_ABOVE, true) && Good(KEY_ABOVE, false) && ShortKeys(KEY_ABOVE)
    ensures var st := [Frame(KEY_ABOVE, 0)];
            KeyAt(KEY_ABOVE, st, Y_NODE, [120]) && !Tight(WithoutKey(st, Y_NODE), true)
  {
    hide *;
    KeyAboveGood();
    KeyAboveStack();
    LeavesChain(KEY_ABOVE, [Frame(KEY_ABOVE, 0)], Y_NODE, [120], true);
  }

  lemma KeyAboveGood()
    ensures Good(KEY_ABOVE, true) && Good(KEY_ABOVE, false) && ShortKeys(KEY_ABOVE)
  {
    assert Good(LEAF_NODE, true) && Good(Y_NODE, true) && Good(KEY_ABOVE, true);
    GoodWeaken(LEAF_NODE);
    GoodWeaken(Y_NODE);
    GoodWeaken(KEY_ABOVE);
    assert Spans(LEAF_NODE, 0) && Spans(Y_NODE, 1) && Spans(KEY_ABOVE, 2);
    SpansShort(KEY_ABOVE, 2);
  }

  lemma KeyAboveStack()
    ensures var st := [Frame(KEY_ABOVE, 0)];
            KeyAt(KEY_ABOVE, st, Y_NODE, [120]) && !StaysTight(st, Y_NODE, true)
  {
    OneFrame(KEY_ABOVE, 0);
  }

  const B_NODE: Node := Node(None, false, [98], [LEAF_NODE])
  const D_NODE: Node := Node(None, false, [100], [LEAF_NODE])

  /** The keys "", "ab" and "cd". */
  const FORKED_KEY: Node := Node(Some(1), false, [97, 99], [B_NODE, D_NODE])

  /** A key that is left with one child is not looked at. */
  lemma ForkedKeyLeavesChain()
    ensures Good(FORKED_KEY, true) && Good(FORKED_KEY, false) && ShortKeys(FORKED_KEY)
    ensures var st := [Frame(FORKED_KEY, 1), Frame(D_NODE, 0)];
            KeyAt(FORKED_KEY, st, LEAF_NODE, [99, 100]) && !Tight(WithoutKey(st, LEAF_NODE), true)
  {
    hide *;
    ForkedKeyGood();
    ForkedKeyStack();
    LeavesChain(FORKED_KEY, [Frame(FORKED_KEY, 1), Frame(D_NODE, 0)], LEAF_NODE, [99, 100], true);
  }

  lemma ForkedKeyGood()
    ensures Good(FORKED_KEY, true) && Good(FORKED_KEY, false) && ShortKeys(FORKED_KEY)
  {
    assert Good(LEAF_NODE, true) && Good(B_NODE, true) && Good(D_NODE, true) && Good(FORKED_KEY, true);
    GoodWeaken(LEAF_NODE);
    GoodWeaken(B_NODE);
    GoodWeaken(D_NODE);
    GoodWeaken(FORKED_KEY);
    assert Spans(LEAF_NODE, 0) && Spans(B_NODE, 1) && Spans(D_NODE, 1) && Spans(FORKED_KEY, 2);
    SpansShort(FORKED_KEY, 2);
  }

  lemma ForkedKeyStack()
    ensures var st := [Frame(FORKED_KEY, 1), Frame(D_NODE, 0)];
            KeyAt(FORKED_KEY, st, LEAF_NODE, [99, 100]) && !StaysTight(st, LEAF_NODE, true)
  {
    var f, g := Frame(FORKED_KEY, 1), Frame(D_NODE, 0);
    TwoFrames(f, g);
    assert Init([f]) == [] && Reclaimed([f, g]) == [f];
    assert Unlinked([f, g]) == Node(Some(1), false, [97], [B_NODE]);
  }
}
