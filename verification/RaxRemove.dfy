/** raxRemove on the objects of a tree: clearing the key, reclaiming the nodes that led to
    it alone, unlinking them from their parent and merging chains of single-child nodes. */
module RaxRemove {
  import opened Wrappers
  import opened Bytes
  import opened RaxTree
  import opened RaxZipper
  import opened RaxOrder
  import opened RaxHeap
  import opened RaxEdit
  import opened RaxRemoval
  import opened RaxCompression
  import opened Rax

  /** The link to c is in the slot of the hole, and c itself is not part of the context. */
  ghost predicate Hole(root: RaxNode, ss: SStack, st: Stack, c: RaxNode)
    reads CtxObjs(ss)
  {
    var linked := CtxRep(ss, st, c);
    var apart := CtxApart(ss) && c !in CtxObjs(ss);
    linked && apart && root == if ss == [] then c else ss[0].shape.obj
  }

  lemma HoleUp(root: RaxNode, ss: SStack, st: Stack, c: RaxNode)
    requires Hole(root, ss, st, c) && ss != []
    ensures Hole(root, ss[..|ss| - 1], Init(st), ss[|ss| - 1].shape.obj)
    ensures ss[|ss| - 1].shape.obj in CtxObjs(ss) && CtxObjs(ss[..|ss| - 1]) <= CtxObjs(ss)
  {
    assert |ss| > 1 ==> ss[..|ss| - 1][0] == ss[0];
  }

  /** Only at the root is the hole linked from the root. */
  lemma HoleAtRoot(root: RaxNode, ss: SStack, st: Stack, c: RaxNode)
    requires Hole(root, ss, st, c)
    ensures c == root <==> ss == []
  {
    if ss != [] { RootInside(ss); }
  }

  /** h comes next to be freed: only s was below it, and it is the last node counted there. */
  ghost predicate ToFree(rax: Rax, t0: Node, s: Key, ss: SStack, st: Stack, h: RaxNode, ts: seq<RaxNode>)
    reads rax, CtxObjs(ss)
  {
    var hole := Hole(rax.head, ss, st, h) && Ancestors(ss, ts);
    var vacated := Vacated(t0, st, s);
    hole && vacated && rax.numnodes == CtxNodes(st) + 1
  }

  /** child has been freed; h is its parent, which still links to it. */
  ghost predicate Freed(rax: Rax, t0: Node, s: Key, ss: SStack, st: Stack, h: RaxNode, child: RaxNode, ts: seq<RaxNode>)
    reads rax, CtxObjs(ss)
  {
    var hole := Hole(rax.head, ss, st, child) && ss != [] && h == ss[|ss| - 1].shape.obj &&
        Ancestors(ss[..|ss| - 1], ts);
    var vacated := Vacated(t0, st, s);
    hole && vacated && rax.numnodes == CtxNodes(st)
  }

  lemma FreedUp(rax: Rax, t0: Node, s: Key, ss: SStack, st: Stack, h: RaxNode, child: RaxNode, ts: seq<RaxNode>)
    requires Freed(rax, t0, s, ss, st, h, child, ts) && Mergeable(Top(st).node)
    ensures ToFree(rax, t0, s, ss[..|ss| - 1], Init(st), h, ts)
    ensures CtxObjs(ss) == CtxObjs(ss[..|ss| - 1]) + {h}
  {
    VacatedUp(t0, st, s);
    MergeableNodes(st);
    HoleUp(rax.head, ss, st, child);
    LoneFrame(ss, st, child);
  }

  /** The frame of a node with a single child holds no object but its own. */
  lemma LoneFrame(ss: SStack, st: Stack, child: RaxNode)
    requires CtxRep(ss, st, child) && ss != [] && Mergeable(Top(st).node)
    ensures CtxObjs(ss) == CtxObjs(ss[..|ss| - 1]) + {ss[|ss| - 1].shape.obj}
  {
    assert |ss[|ss| - 1].shape.kids| == 1;
  }

  /** One turn of the reclaiming loop. */
  method FreeNode(rax: Rax, h0: RaxNode, ts0: seq<RaxNode>, s: Key, ghost ss: SStack, ghost st: Stack, ghost t0: Node)
    returns (h: RaxNode, ts: seq<RaxNode>)
    requires ToFree(rax, t0, s, ss, st, h0, ts0) && h0 != rax.head
    modifies rax`numnodes
    ensures Freed(rax, t0, s, ss, st, h, h0, ts)
  {
    HoleAtRoot(rax.head, ss, st, h0);
    rax.numnodes := rax.numnodes - 1;
    h, ts := ts0[|ts0| - 1], ts0[..|ts0| - 1];
  }

  lemma FreedHead(rax: Rax, t0: Node, s: Key, ss: SStack, st: Stack, h: RaxNode, child: RaxNode, ts: seq<RaxNode>)
    requires Freed(rax, t0, s, ss, st, h, child, ts)
    ensures h == rax.head <==> Init(st) == []
    ensures Mergeable(Top(st).node) <==> !(h.val.Some? || (!h.compr && |h.chars| != 1))
  {
    HoleUp(rax.head, ss, st, child);
    HoleAtRoot(rax.head, ss[..|ss| - 1], Init(st), h);
  }

  /** Free h and every ancestor that leads nowhere else, up to the first one that has to stay. */
  method Reclaim(rax: Rax, h0: RaxNode, ts0: seq<RaxNode>, s: Key, ghost ss0: SStack, ghost st0: Stack, ghost t0: Node)
    returns (h: RaxNode, child: RaxNode, ts: seq<RaxNode>, ghost ss: SStack, ghost st: Stack,
             ghost freed: seq<RaxNode>)
    requires ToFree(rax, t0, s, ss0, st0, h0, ts0) && h0 != rax.head
    modifies rax`numnodes
    ensures CtxObjs(ss) <= CtxObjs(ss0) && Freed(rax, t0, s, ss, st, h, child, ts)
    ensures Releases(CtxObjs(ss0) + {h0}, freed, CtxObjs(ss))
    ensures st0 != [] && StackOk(st0) && st == Reclaimed(st0)
  {
    h, child, ts, ss, st, freed := h0, h0, ts0, ss0, st0, [];
    FreeHole(rax, t0, s, ss, st, h, ts);
    while true
      invariant CtxObjs(ss) <= CtxObjs(ss0) && ToFree(rax, t0, s, ss, st, h, ts) && h != rax.head
      invariant Releases(CtxObjs(ss0) + {h0}, freed, CtxObjs(ss) + {h}) && h in CtxObjs(ss0) + {h0}
      invariant st != [] && StackOk(st) && Reclaimed(st) == Reclaimed(st0)
      decreases |ss|
    {
      child := h;
      h, ts := FreeNode(rax, child, ts, s, ss, st, t0);
      FreeOne(CtxObjs(ss0) + {h0}, freed, CtxObjs(ss), child);
      freed := freed + [child];
      FreedHead(rax, t0, s, ss, st, h, child, ts);
      if h.val.Some? || (!h.compr && |h.chars| != 1) || h == rax.head { break; }
      FreedUp(rax, t0, s, ss, st, h, child, ts);
      ss, st := ss[..|ss| - 1], Init(st);
      FreeHole(rax, t0, s, ss, st, h, ts);
    }
  }

  lemma FreeOne(before: set<RaxNode>, freed: seq<RaxNode>, after: set<RaxNode>, o: RaxNode)
    requires Releases(before, freed, after + {o}) && o !in after && o in before
    ensures Releases(before, freed + [o], after)
  {
  }

  lemma ReleasesAround(os: set<RaxNode>, before: set<RaxNode>, freed: seq<RaxNode>, after: set<RaxNode>)
    requires Releases(before, freed, after) && os !! before
    ensures Releases(os + before, freed, os + after)
  {
  }

  lemma ReleasesNone(os: set<RaxNode>)
    ensures Releases(os, [], os)
  {
  }

  /** Only the root has nothing above it. */
  lemma FreeHole(rax: Rax, t0: Node, s: Key, ss: SStack, st: Stack, h: RaxNode, ts: seq<RaxNode>)
    requires ToFree(rax, t0, s, ss, st, h, ts) && h != rax.head
    ensures st != [] && StackOk(st) && h !in CtxObjs(ss)
  {
    HoleAtRoot(rax.head, ss, st, h);
    CtxGoodStackOk(st, false);
  }

  lemma MergeableNodes(st: Stack)
    requires st != [] && StackOk(st) && Mergeable(Top(st).node)
    ensures CtxNodes(st) == CtxNodes(Init(st)) + 1
  {
    assert Top(st).node.kids[..Top(st).idx] == [] && Top(st).node.kids[Top(st).idx + 1..] == [];
  }

  // ---------------------------------------------------------------- unlinking the freed child

  /** The shape of the frame object without its hole. */
  ghost function Rest(g: SFrame): Shape
    requires g.idx < |g.shape.kids|
  {
    Shape(g.shape.obj, RemoveAt(g.shape.kids, g.idx))
  }

  lemma RestObjs(g: SFrame)
    requires g.idx < |g.shape.kids|
    ensures Objs(Rest(g)) == FrameObjs(g)
  {
    var ks, k := g.shape.kids, Rest(g).kids;
    forall o | o in FrameObjs(g) ensures o in Objs(Rest(g)) {
      if o != g.shape.obj {
        var j :| 0 <= j < |ks| && j != g.idx && o in Objs(ks[j]);
        assert k[if j < g.idx then j else j - 1] == ks[j];
      }
    }
    forall o | o in Objs(Rest(g)) ensures o in FrameObjs(g) {
      if o != g.shape.obj {
        var i :| 0 <= i < |k| && o in Objs(k[i]);
        assert k[i] == ks[if i < g.idx then i else i + 1];
      }
    }
  }

  lemma RestApart(g: SFrame)
    requires FrameApart(g)
    ensures Apart(Rest(g)) && Objs(Rest(g)) == FrameObjs(g)
  {
    RestObjs(g);
    var ks, k := g.shape.kids, Rest(g).kids;
    forall i | 0 <= i < |k| ensures k[i] == ks[if i < g.idx then i else i + 1] && Objs(k[i]) <= FrameObjs(g) {
      var j := if i < g.idx then i else i + 1;
      assert forall o | o in Objs(ks[j]) :: o in FrameObjs(g);
    }
    forall i, j | 0 <= i < j < |k| ensures Objs(k[i]) !! Objs(k[j]) {
    }
  }

  lemma RepRest(g: SFrame, f: Frame)
    requires FrameIn(f) && f.idx == g.idx && !f.node.compr && |f.node.chars| == |f.node.kids| == |g.shape.kids|
    requires Holding(g.shape.obj, RemoveChild(f.node, f.idx))
    requires |g.shape.obj.kids| == |f.node.kids| - 1
    requires forall i | 0 <= i < |g.shape.obj.kids| ::
               var j := if i < g.idx then i else i + 1;
               g.shape.obj.kids[i] == g.shape.kids[j].obj && Rep(g.shape.kids[j], f.node.kids[j])
    ensures Rep(Rest(g), RemoveChild(f.node, f.idx))
  {
    var n := RemoveChild(f.node, f.idx);
    forall i | 0 <= i < |n.kids| ensures Rest(g).obj.kids[i] == Rest(g).kids[i].obj && Rep(Rest(g).kids[i], n.kids[i]) {
      var j := if i < g.idx then i else i + 1;
      assert n.kids[i] == f.node.kids[j] && Rest(g).kids[i] == g.shape.kids[j];
    }
  }

  /** The object has the value, layout and characters of the node. */
  ghost predicate Holding(o: RaxNode, n: Node)
    reads o
  {
    o.val == n.val && o.compr == n.compr && o.chars == n.chars
  }

  /** raxRemoveChild. */
  method Unlink(h: RaxNode, child: RaxNode, ghost g: SFrame, ghost f: Frame)
    requires h == g.shape.obj && FrameRep(g, f, child) && FrameApart(g) && child !in FrameObjs(g) && Format(f.node)
    modifies h
    ensures Rep(if f.node.compr then Shape(h, []) else Rest(g), RemoveChild(f.node, f.idx))
  {
    if h.compr {
      h.compr, h.chars, h.kids := false, [], [];
    } else {
      FrameObjsAllocated(g);
      var i := FindLink(h, child);
      LinkOnlyAt(g, f, child, i);
      h.chars, h.kids := RemoveAt(h.chars, i), RemoveAt(h.kids, i);
      RepRest(g, f);
    }
  }

  /** After the reclaiming loop: h loses the freed child and stands at the top of the removal. */
  method UnlinkFreed(rax: Rax, h: RaxNode, child: RaxNode, ts: seq<RaxNode>, s: Key, ghost ss: SStack,
                     ghost st: Stack, ghost t0: Node)
    returns (ghost q: Pos)
    requires Freed(rax, t0, s, ss, st, h, child, ts)
    modifies h
    ensures Stands(q, rax.head, h) && PosObjs(q) == CtxObjs(ss) && Ancestors(q.ss, ts)
    ensures q.st == Init(st) && q.t == RemoveChild(Top(st).node, Top(st).idx)
  {
    ghost var g, f := ss[|ss| - 1], Top(st);
    HoleUp(rax.head, ss, st, child);
    RestApart(g);
    CtxObjsAllocated(ss);
    assert Slot(ss[..|ss| - 1], Init(st), rax.head, h, ParentOf(ss[..|ss| - 1]), IdxOf(ss[..|ss| - 1]));
    Unlink(h, child, g, f);
    q := Pos(ss[..|ss| - 1], Init(st), if f.node.compr then Shape(h, []) else Rest(g), RemoveChild(f.node, f.idx));
  }

  // ---------------------------------------------------------------- recompression

  /** Climb to the uppermost node of the chain; parent is the ancestor where the climb stops. */
  method Climb(h0: RaxNode, ts0: seq<RaxNode>, ghost root: RaxNode, ghost p: Pos, ghost t0: Node, ghost s: Key,
               ghost n: int)
    returns (h: RaxNode, parent: RaxNode?, ghost q: Pos)
    requires Stands(p, root, h0) && Ancestors(p.ss, ts0) && Mergeable(p.t) && RemovedAt(t0, p.st, p.t, s, n)
    ensures Stands(q, root, h) && parent == ParentOf(q.ss) && Mergeable(q.t) && RemovedAt(t0, q.st, q.t, s, n)
    ensures h in PosObjs(p) && PosObjs(q) == PosObjs(p)
    ensures StackOk(p.st) && StackOk(q.st) && q.t == Climbed(p.st, p.t)
    ensures Recompressed(p.st, p.t) == Plug(q.st, Merged(q.t))
  {
    hide *;
    var ts;
    RemovedStack(t0, p.st, p.t, s, n);
    h, ts, q := h0, ts0, p;
    while true
      invariant Stands(q, root, h) && Ancestors(q.ss, ts) && Mergeable(q.t) && RemovedAt(t0, q.st, q.t, s, n)
      invariant PosObjs(q) == PosObjs(p) && StackOk(p.st) && StackOk(q.st) && Climbed(q.st, q.t) == Climbed(p.st, p.t)
      invariant Recompressed(q.st, q.t) == Recompressed(p.st, p.t)
      decreases |ts|
    {
      ClimbStops(q, root, h, ts);
      if ts == [] { return h, null, q; }
      parent := ts[|ts| - 1];
      if parent.val.Some? || (!parent.compr && |parent.chars| != 1) { break; }
      ClimbUp(q, root, h, ts, t0, s, n);
      h, ts, q := parent, ts[..|ts| - 1], Up(q);
    }
  }

  /** The climb stops at the root and below a node that cannot be merged. */
  lemma ClimbStops(p: Pos, root: RaxNode, h: RaxNode, ts: seq<RaxNode>)
    requires Stands(p, root, h) && Ancestors(p.ss, ts) && StackOk(p.st) && Mergeable(p.t)
    ensures h in PosObjs(p) && (ts == [] ==> ParentOf(p.ss) == null)
    ensures ts != [] ==> ts[|ts| - 1] == ParentOf(p.ss) && ts[|ts| - 1] in PosObjs(p)
    ensures ts == [] || ts[|ts| - 1].val.Some? || (!ts[|ts| - 1].compr && |ts[|ts| - 1].chars| != 1) ==>
              Climbed(p.st, p.t) == p.t && Recompressed(p.st, p.t) == Plug(p.st, Merged(p.t))
  {
    hide Plug, Merged;
  }

  /** Any other node above is part of the chain. */
  lemma ClimbUp(p: Pos, root: RaxNode, h: RaxNode, ts: seq<RaxNode>, t0: Node, s: Key, n: int)
    requires Stands(p, root, h) && Ancestors(p.ss, ts) && Mergeable(p.t) && RemovedAt(t0, p.st, p.t, s, n)
    requires ts != [] && ts[|ts| - 1].val.None? && (ts[|ts| - 1].compr || |ts[|ts| - 1].chars| == 1)
    ensures p.ss != [] && p.st != [] && FrameIn(Top(p.st))
    ensures p.ss[|p.ss| - 1].idx < |p.ss[|p.ss| - 1].shape.kids|
    ensures Stands(Up(p), root, ts[|ts| - 1]) && Ancestors(Up(p).ss, ts[..|ts| - 1]) && PosObjs(Up(p)) == PosObjs(p)
    ensures Mergeable(Up(p).t) && RemovedAt(t0, Up(p).st, Up(p).t, s, n) && StackOk(Up(p).st) && StackOk(p.st)
    ensures Climbed(Up(p).st, Up(p).t) == Climbed(p.st, p.t)
    ensures Recompressed(Up(p).st, Up(p).t) == Recompressed(p.st, p.t)
  {
    StandsUp(p, root, h);
    RemovedUp(t0, p.st, p.t, s, n);
    hide Objs, Apart, CtxApart, PosObjs, CtxObjs, Good, Fits, CtxGood, Plug, Lookup, Rep;
  }

  lemma RemovedStack(t0: Node, st: Stack, h: Node, s: Key, n: int)
    requires RemovedAt(t0, st, h, s, n)
    ensures StackOk(st)
  {
  }

  /** The first scan: how many nodes and bytes it counts before a node would not fit. */
  method MeasureChain(start: RaxNode, ghost s: Shape, ghost t: Node) returns (nodes: nat, comprsize: nat)
    requires s.obj == start && Rep(s, t) && Good(t, false) && Mergeable(t)
    ensures nodes == 1 + CappedCount(t.kids[0], |t.chars|) && comprsize == CappedSize(t.kids[0], |t.chars|)
  {
    var h := start;
    ghost var hs, ht := s, t;
    nodes, comprsize := 1, |h.chars|;
    while h.chars != []
      invariant hs.obj == h && Rep(hs, ht) && Good(ht, false) && Mergeable(ht)
      invariant nodes + CappedCount(ht.kids[0], comprsize) == 1 + CappedCount(t.kids[0], |t.chars|)
      invariant CappedSize(ht.kids[0], comprsize) == CappedSize(t.kids[0], |t.chars|)
      decreases ht
    {
      MergeableIsLink(ht);
      h, hs, ht := h.kids[|h.kids| - 1], hs.kids[0], ht.kids[0];
      if h.val.Some? || (!h.compr && |h.chars| != 1) { break; }
      if comprsize + |h.chars| > NODE_MAX_SIZE { break; }
      nodes, comprsize := nodes + 1, comprsize + |h.chars|;
    }
  }

  /** What the object of a chain shows of the node and of the next one. */
  lemma ChainObject(s: Shape, t: Node)
    requires Rep(s, t) && Apart(s) && Good(t, false) && Mergeable(t)
    ensures s.obj.chars == t.chars && |s.obj.kids| == |s.kids| == |t.kids| == 1 && Good(t.kids[0], false)
    ensures Rep(s.kids[0], t.kids[0]) && Apart(s.kids[0]) && Objs(s.kids[0]) <= Objs(s)
    ensures Objs(s) == Objs(s.kids[0]) + {s.obj} && s.obj !in Objs(s.kids[0])
    ensures var next := s.obj.kids[0];
            next == s.kids[0].obj &&
            Mergeable(t.kids[0]) == !(next.val.Some? || (!next.compr && |next.chars| != 1))
    ensures MergeText(t) == t.chars + MergeText(t.kids[0]) && MergeEnd(t) == MergeEnd(t.kids[0])
    ensures MergeCount(t) == 1 + MergeCount(t.kids[0])
    ensures !Mergeable(t.kids[0]) ==>
              MergeText(t.kids[0]) == [] && MergeEnd(t.kids[0]) == t.kids[0] && MergeCount(t.kids[0]) == 0
  {
    MergeableIsLink(t);
  }

  /** The second scan: collect the bytes of the chain and free its nodes. */
  method CollectChain(rax: Rax, start: RaxNode, ghost s: Shape, ghost t: Node)
    returns (text: Key, end: RaxNode, ghost es: Shape, ghost freed: seq<RaxNode>)
    requires s.obj == start && Rep(s, t) && Apart(s) && Good(t, false) && Mergeable(t)
    modifies rax`numnodes
    ensures Releases(Objs(s), freed, Objs(es))
    ensures text == MergeText(t) && rax.numnodes == old(rax.numnodes) - MergeCount(t)
    ensures es.obj == end && Rep(es, MergeEnd(t)) && Apart(es) && Objs(es) <= Objs(s)
  {
    hide *;
    text, end, es, freed := [], start, s, [];
    ghost var et := t;
    ReleasesNone(Objs(s));
    while true
      invariant Releases(Objs(s), freed, Objs(es))
      invariant es.obj == end && Rep(es, et) && Apart(es) && Objs(es) <= Objs(s) && Good(et, false) && Mergeable(et)
      invariant text + MergeText(et) == MergeText(t) && MergeEnd(et) == MergeEnd(t)
      invariant rax.numnodes - MergeCount(et) == old(rax.numnodes) - MergeCount(t)
      decreases et
    {
      ChainObject(es, et);
      text := text + end.chars;
      assert text + MergeText(et.kids[0]) == MergeText(t);
      FreeOne(Objs(s), freed, Objs(es.kids[0]), end);
      freed := freed + [end];
      end, es, et := end.kids[|end.kids| - 1], es.kids[0], et.kids[0];
      rax.numnodes := rax.numnodes - 1;
      if end.val.Some? || (!end.compr && |end.chars| != 1) { break; }
    }
  }

  /** The compressed node that replaces a chain of more than one node. */
  method NewMerged(rax: Rax, h: RaxNode, comprsize: nat, ghost s: Shape, ghost t: Node)
    returns (top: RaxNode, ghost ts: Shape, ghost freed: seq<RaxNode>)
    requires s.obj == h && Rep(s, t) && Apart(s) && Good(t, false) && Mergeable(t) && MergeCount(t) > 1
    requires comprsize == |MergeText(t)| <= NODE_MAX_SIZE
    modifies rax`numnodes
    ensures ts.obj == top && Rep(ts, Link(None, MergeText(t), MergeEnd(t))) && Apart(ts)
    ensures fresh(top) && Objs(ts) <= Objs(s) + {top} && Releases(Objs(s), freed, Objs(ts))
    ensures rax.numnodes == old(rax.numnodes) - MergeCount(t) + 1
  {
    MergeLookup(t, []);
    ObjsAllocated(s);
    rax.numnodes := rax.numnodes + 1;
    var text, end;
    ghost var es;
    text, end, es, freed := CollectChain(rax, h, s, t);
    assert |text| == comprsize;
    ObjsAllocated(es);
    top := NewAbove(None, true, text, end, Link(None, text, MergeEnd(t)), es);
    ts := Shape(top, [es]);
  }

  /** Find the link to h in its parent, or take the root, and store the link to top there. */
  method Relink(rax: Rax, parent: RaxNode?, h: RaxNode, top: RaxNode, ghost q: Pos)
    requires Slot(q.ss, q.st, rax.head, h, ParentOf(q.ss), IdxOf(q.ss)) && h !in CtxObjs(q.ss) &&
             parent == ParentOf(q.ss)
    requires q.s.obj == top && Rep(q.s, q.t) && Apart(q.s) && CtxObjs(q.ss) !! Objs(q.s)
    modifies rax`head, parent
    ensures Stands(q, rax.head, top)
  {
    if parent == null {
      rax.SetLink(null, 0, h, top, q);
    } else {
      ghost var g, f := q.ss[|q.ss| - 1], Top(q.st);
      assert parent.kids[g.idx] == h;
      CtxObjsAllocated(q.ss);
      ObjsAllocated(q.s);
      var idx := FindLink(parent, h);
      LinkOnlyAt(g, f, h, idx);
      rax.SetLink(parent, idx, h, top, q);
    }
  }

  /** Merge the chain that starts at h into one compressed node. */
  method Merge(rax: Rax, h: RaxNode, parent: RaxNode?, comprsize: nat, ghost p: Pos, ghost t0: Node, ghost s: Key)
    returns (top: RaxNode, ghost q: Pos, ghost freed: seq<RaxNode>)
    requires Stands(p, rax.head, h) && parent == ParentOf(p.ss) && Mergeable(p.t) && MergeCount(p.t) > 1
    requires comprsize == |MergeText(p.t)| <= NODE_MAX_SIZE && RemovedAt(t0, p.st, p.t, s, rax.numnodes)
    modifies rax`head, rax`numnodes, parent
    ensures Stands(q, rax.head, top) && RemovedAt(t0, q.st, q.t, s, rax.numnodes)
    ensures q.st == p.st && q.t == Link(None, MergeText(p.t), MergeEnd(p.t))
    ensures fresh(top) && Objs(q.s) <= Objs(p.s) + {top} && q.ss == p.ss
    ensures Releases(PosObjs(p), freed, PosObjs(q))
  {
    CtxObjsAllocated(p.ss);
    RemovedMerge(t0, p.st, p.t, s, rax.numnodes);
    ghost var ts;
    top, ts, freed := NewMerged(rax, h, comprsize, p.s, p.t);
    ReleasesAround(CtxObjs(p.ss), Objs(p.s), freed, Objs(ts));
    q := Pos(p.ss, p.st, ts, Link(None, MergeText(p.t), MergeEnd(p.t)));
    Relink(rax, parent, h, top, q);
  }

  lemma RemovedStanding(t0: Node, st: Stack, h: Node, s: Key, n: int)
    requires RemovedAt(t0, st, h, s, n)
    ensures Good(h, false)
  {
  }

  /** Climb to the start of the chain around h and merge the chain if it has several nodes. */
  method Compress(rax: Rax, h: RaxNode, ts: seq<RaxNode>, ghost p: Pos, ghost t0: Node, ghost s: Key)
    returns (top: RaxNode, ghost q: Pos, ghost freed: seq<RaxNode>)
    requires Stands(p, rax.head, h) && Ancestors(p.ss, ts) && Mergeable(p.t) &&
             RemovedAt(t0, p.st, p.t, s, rax.numnodes)
    requires StackOk(p.st) && !Overlong(Climbed(p.st, p.t))
    modifies rax`head, rax`numnodes, PosObjs(p)
    ensures Stands(q, rax.head, top) && RemovedAt(t0, q.st, q.t, s, rax.numnodes)
    ensures StackOk(q.st) && Plug(q.st, q.t) == Recompressed(p.st, p.t)
    ensures PosObjs(q) <= PosObjs(p) + {top} && (top in PosObjs(p) || fresh(top))
    ensures Releases(PosObjs(p), freed, PosObjs(q))
  {
    CtxObjsAllocated(p.ss);
    ObjsAllocated(p.s);
    var start, parent;
    ghost var r;
    start, parent, r := Climb(h, ts, rax.head, p, t0, s, rax.numnodes);
    CtxObjsAllocated(r.ss);
    ObjsAllocated(r.s);
    RemovedStanding(t0, r.st, r.t, s, rax.numnodes);
    var nodes, comprsize := MeasureChain(start, r.s, r.t);
    ScansDiffer(r.t);
    if nodes > 1 {
      top, q, freed := Merge(rax, start, parent, comprsize, r, t0, s);
    } else {
      top, q, freed := start, r, [];
    }
  }

  // ---------------------------------------------------------------- raxRemove

  /** After the edits the tree around top is t0 without s; the objects are old ones and top. */
  ghost predicate Edited(rax: Rax, q: Pos, top: RaxNode, t0: Node, s: Key, before: set<RaxNode>)
    reads rax, PosObjs(q)
  {
    var stands := Stands(q, rax.head, top);
    var removed := RemovedAt(t0, q.st, q.t, s, rax.numnodes);
    stands && removed && PosObjs(q) <= before + {top}
  }

  /** h stands where the removal left the tree without s. */
  ghost predicate LeftAt(rax: Rax, q: Pos, h: RaxNode, ts: seq<RaxNode>, t0: Node, s: Key)
    reads rax, PosObjs(q)
  {
    var stands := Stands(q, rax.head, h) && Ancestors(q.ss, ts);
    var removed := RemovedAt(t0, q.st, q.t, s, rax.numnodes);
    stands && removed
  }

  /** Reclaim the nodes that led to s alone and unlink them. */
  method UnlinkLeaf(rax: Rax, h0: RaxNode, ts0: seq<RaxNode>, s: Key, ghost p: Pos, ghost t0: Node)
    returns (h: RaxNode, ts: seq<RaxNode>, ghost q: Pos, ghost freed: seq<RaxNode>)
    requires h0 != rax.head && ToFree(rax, t0, s, p.ss, p.st, h0, ts0)
    modifies rax`numnodes, CtxObjs(p.ss)
    ensures LeftAt(rax, q, h, ts, t0, s) && PosObjs(q) <= CtxObjs(p.ss)
    ensures Releases(CtxObjs(p.ss) + {h0}, freed, PosObjs(q))
    ensures p.st != [] && StackOk(p.st) && q.st == Init(Reclaimed(p.st)) && q.t == Unlinked(p.st)
  {
    ghost var ss, st;
    var child;
    FreeHole(rax, t0, s, p.ss, p.st, h0, ts0);
    ReclaimedVacated(t0, p.st, s);
    h, child, ts, ss, st, freed := Reclaim(rax, h0, ts0, s, p.ss, p.st, t0);
    HoleUp(rax.head, ss, st, child);
    RemovedByUnlink(t0, st, s);
    q := UnlinkFreed(rax, h, child, ts, s, ss, st, t0);
  }

  /** The key was in a node without children. */
  method RemoveLeaf(rax: Rax, h0: RaxNode, ts0: seq<RaxNode>, s: Key, ghost p: Pos, ghost t0: Node)
    returns (top: RaxNode, ghost q: Pos, ghost freed: seq<RaxNode>)
    requires h0 != rax.head && ToFree(rax, t0, s, p.ss, p.st, h0, ts0)
    requires p.st != [] && StackOk(p.st) && !LeafOverruns(p.st)
    modifies rax`head, rax`numnodes, CtxObjs(p.ss)
    ensures Edited(rax, q, top, t0, s, PosObjs(p)) && (top in PosObjs(p) || fresh(top))
    ensures StackOk(q.st) && Plug(q.st, q.t) == Settled(Init(Reclaimed(p.st)), Unlinked(p.st))
    ensures Releases(CtxObjs(p.ss) + {h0}, freed, PosObjs(q))
  {
    CtxObjsAllocated(p.ss);
    var h, ts;
    h, ts, q, freed := UnlinkLeaf(rax, h0, ts0, s, p, t0);
    top := h;
    if |h.chars| == 1 && h.val.None? {
      ghost var left, more := PosObjs(q), [];
      top, q, more := Compress(rax, h, ts, q, t0, s);
      ReleasesThen(CtxObjs(p.ss) + {h0}, freed, left, more, PosObjs(q));
      freed := freed + more;
    }
  }

  lemma ToFreeStart(rax: Rax, t0: Node, h: RaxNode, ts: seq<RaxNode>, p: Pos, t: Node)
    requires Stands(p, rax.head, h) && Ancestors(p.ss, ts)
    requires Good(t0, false) && Chain(t0, p.st, t) && t.kids == [] && rax.numnodes == Nodes(t0)
    ensures StackOk(p.st) && ToFree(rax, t0, Path(p.st), p.ss, p.st, h, ts)
  {
    VacatedStart(t0, p.st, t);
    ChainPlug(t0, p.st, t);
    PlugNodes(p.st, t);
  }

  /** What raxRemove does once the node of s has been found and its key cleared. */
  method Cleanup(rax: Rax, h: RaxNode, ts: seq<RaxNode>, s: Key, ghost p: Pos, ghost t0: Node, ghost t: Node)
    returns (top: RaxNode, ghost q: Pos, ghost freed: seq<RaxNode>)
    requires Stands(p, rax.head, h) && Ancestors(p.ss, ts) && p.t == t.(val := None)
    requires Good(t0, false) && Good(t, false) && Chain(t0, p.st, t) && StackOk(p.st) && Path(p.st) == s
    requires rax.numnodes == Nodes(t0) && !Overruns(p.st, t)
    modifies rax`head, rax`numnodes, PosObjs(p)
    ensures Edited(rax, q, top, t0, s, PosObjs(p)) && (top in PosObjs(p) || fresh(top))
    ensures StackOk(q.st) && Plug(q.st, q.t) == WithoutKey(p.st, t)
    ensures Releases(PosObjs(p), freed, PosObjs(q))
  {
    top, q, freed := h, p, [];
    if h.chars == [] {
      assert t.kids == [] && p.t == EMPTY;
      HoleAtRoot(rax.head, p.ss, p.st, h);
      if h != rax.head {
        ToFreeStart(rax, t0, h, ts, p, t);
        LeafShape(p);
        top, q, freed := RemoveLeaf(rax, h, ts, s, p, t0);
      } else {
        RemovedRoot(t0);
      }
    } else {
      RemovedByUnkey(t0, p.st, t);
      ChainPlug(t0, p.st, t);
      if |h.chars| == 1 {
        top, q, freed := Compress(rax, h, ts, p, t0, s);
      }
    }
  }

  lemma LeafShape(p: Pos)
    requires Rep(p.s, p.t) && p.t.kids == []
    ensures PosObjs(p) == CtxObjs(p.ss) + {p.s.obj}
  {
  }

  lemma RemovedMap(t0: Node, st: Stack, h: Node, s: Key, n: int)
    requires RemovedAt(t0, st, h, s, n)
    ensures MapOf(Plug(st, h)) == MapOf(t0) - {s} && n == Nodes(Plug(st, h))
    ensures |MapOf(Plug(st, h))| == |MapOf(t0)| - if s in MapOf(t0) then 1 else 0
  {
    MapRemove(t0, Plug(st, h), s);
    UpdateSize(MapOf(t0), s, 0);
  }

  lemma WithoutAbsent(m: map<Key, Ptr>, s: Key)
    requires s !in m
    ensures m - {s} == m
  {
  }

  /** The objects hold t0 without s, and the nodes are counted. */
  ghost predicate Shrunk(rax: Rax, t0: Node, s: Key)
    reads rax, rax.repr
  {
    var counted := rax.Linked() && Good(rax.tree, false) && rax.numnodes == Nodes(rax.tree);
    counted && Good(t0, false) && MapOf(rax.tree) == MapOf(t0) - {s} &&
    |MapOf(rax.tree)| == |MapOf(t0)| - if s in MapOf(t0) then 1 else 0
  }

  /** h, the node of s in t0, stands at the position with its key cleared. */
  ghost predicate Cleared(rax: Rax, h: RaxNode, ts: seq<RaxNode>, s: Key, p: Pos, t0: Node, t: Node)
    reads rax, PosObjs(p)
  {
    var stands := Stands(p, rax.head, h) && Ancestors(p.ss, ts) && p.t == t.(val := None);
    var node := Good(t0, false) && Good(t, false) && Chain(t0, p.st, t) && StackOk(p.st) && Path(p.st) == s;
    stands && node && rax.numnodes == Nodes(t0) && !Overruns(p.st, t)
  }

  /** Clean up and make the result the tree. */
  method CleanupAll(rax: Rax, h: RaxNode, ts: seq<RaxNode>, s: Key, ghost p: Pos, ghost t0: Node, ghost t: Node)
    returns (ghost added: set<RaxNode>, ghost freed: seq<RaxNode>)
    requires Cleared(rax, h, ts, s, p, t0, t)
    modifies rax`head, rax`numnodes, rax`shape, rax`tree, rax`repr, PosObjs(p)
    ensures Shrunk(rax, t0, s) && fresh(added) && rax.repr <= PosObjs(p) + added
    ensures StackOk(p.st) && rax.tree == WithoutKey(p.st, t) && Releases(PosObjs(p), freed, rax.repr)
  {
    var top;
    ghost var q;
    top, q, freed := Cleanup(rax, h, ts, s, p, t0, t);
    added := if top in PosObjs(p) then {} else {top};
    RemovedMap(t0, q.st, q.t, s, rax.numnodes);
    rax.Commit(q, top, ParentOf(q.ss), IdxOf(q.ss));
  }

  /** The node of s loses its value, and the tree one element. */
  method ClearKey(rax: Rax, h: RaxNode, parent: RaxNode?, idx: nat, ghost p: Pos) returns (ghost q: Pos)
    requires At(p, rax.head, h, parent, idx)
    modifies rax`numele, h
    ensures Stands(q, rax.head, h) && q == Pos(p.ss, p.st, p.s, p.t.(val := None)) && PosObjs(q) == PosObjs(p)
    ensures rax.numele == old(rax.numele) - 1
  {
    hide CtxRep, CtxApart, Apart;
    KidsApart(p.s);
    h.val := None;
    q := Pos(p.ss, p.st, p.s, p.t.(val := None));
    assert Stands(q, rax.head, h);
    rax.numele := rax.numele - 1;
  }

  lemma NowCleared(rax: Rax, h: RaxNode, ts: seq<RaxNode>, s: Key, p: Pos, t0: Node, t: Node)
    requires Stands(p, rax.head, h) && Ancestors(p.ss, ts) && p.t == t.(val := None)
    requires Good(t0, false) && Good(t, false) && Chain(t0, p.st, t) && StackOk(p.st) && Path(p.st) == s
    requires rax.numnodes == Nodes(t0) && !Overruns(p.st, t)
    ensures Cleared(rax, h, ts, s, p, t0, t)
  {
  }

  lemma ValidParts(rax: Rax, s: Key)
    requires rax.Valid()
    ensures Good(rax.tree, false) && rax.numnodes == Nodes(rax.tree) && rax.numele == |MapOf(rax.tree)|
    ensures s in rax.Contents() <==> s in MapOf(rax.tree)
  {
  }

  lemma ShrunkValid(rax: Rax, t0: Node, s: Key)
    requires Shrunk(rax, t0, s) && s in MapOf(t0) && rax.numele == |MapOf(t0)| - 1
    ensures rax.Valid() && MapOf(rax.tree) == MapOf(t0) - {s}
  {
  }

  /** The node of s loses its key. */
  method RemoveAtNode(rax: Rax, h: RaxNode, parent: RaxNode?, idx: nat, ts: seq<RaxNode>, s: Key, ghost p: Pos)
    returns (ghost added: set<RaxNode>, ghost freed: seq<RaxNode>)
    requires rax.Valid() && At(p, rax.head, h, parent, idx) && PosObjs(p) == rax.repr && Ancestors(p.ss, ts)
    requires Chain(rax.tree, p.st, p.t) && Good(p.t, false) && StackOk(p.st) && Path(p.st) == s
    requires s in rax.Contents() && !Overruns(p.st, p.t)
    modifies rax, rax.repr
    ensures rax.Valid() && MapOf(rax.tree) == old(MapOf(rax.tree)) - {s} && rax.tree == WithoutKey(p.st, p.t)
    ensures fresh(added) && rax.repr <= old(rax.repr) + added && Releases(old(rax.repr), freed, rax.repr)
  {
    hide *;
    ValidParts(rax, s);
    AtParts(p, rax.head, h, parent, idx);
    ghost var t0 := rax.tree;
    ghost var q := ClearKey(rax, h, parent, idx, p);
    NowCleared(rax, h, ts, s, q, t0, p.t);
    added, freed := CleanupAll(rax, h, ts, s, q, t0, p.t);
    ShrunkValid(rax, t0, s);
  }

  /** The walk to the node of s, when s is a key. */
  method FindNode(rax: Rax, s: Key)
    returns (found: bool, h: RaxNode, parent: RaxNode?, idx: nat, ts: seq<RaxNode>, ghost p: Pos)
    requires rax.Valid()
    ensures found == (s in rax.Contents())
    ensures found ==> h.val == Some(rax.Contents()[s]) && PosObjs(p) == rax.repr && Ancestors(p.ss, ts)
    ensures found ==> At(p, rax.head, h, parent, idx)
    ensures found ==> Chain(rax.tree, p.st, p.t) && Good(p.t, false) && StackOk(p.st) && Path(p.st) == s
  {
    var i, j;
    i, h, parent, idx, j, ts, p := rax.LowWalk(s);
    WalkLookup(rax.tree, p.st, p.t, s, i, j);
    MapLookup(rax.tree, s);
    found := !(i != |s| || (h.compr && j != 0) || h.val.None?);
  }

  /** What the removal makes of maximal compression, and of the promise that nodes that are no
      keys and have a single child do not follow each other. */
  ghost predicate StaysAsCompressed(t0: Node, s: Key, t: Node) {
    Good(t0, false) && Good(t, false) &&
    (ShortKeys(t0) ==>
       && (Good(t0, true) ==> (Good(t, true) <==> StaysCompressed(t0, s, true)))
       && (Tight(t0, false) ==> (Tight(t, false) <==> StaysCompressed(t0, s, false))))
  }

  lemma StaysExactly(t0: Node, s: Key, t: Node)
    requires Good(t0, false) && Good(t, false) && IsWithout(t0, s, t)
    ensures StaysAsCompressed(t0, s, t)
  {
    if ShortKeys(t0) { CompressedExactly(t0, s, t); }
  }

  /** raxRemove. The second scan of the recompression has no cap of its own: the chain that this
      removal leaves must not be overlong. */
  method Remove(rax: Rax, s: Key) returns (removed: bool, prev: Option<Ptr>, ghost freed: seq<RaxNode>)
    requires rax.Valid()
    requires RemovalFits(rax.tree, s)
    modifies rax, rax.repr
    ensures rax.Valid() && fresh(rax.repr - old(rax.repr))
    ensures removed == (s in old(rax.Contents()))
    ensures prev == if removed then Some(old(rax.Contents())[s]) else None
    ensures rax.Contents() == old(rax.Contents()) - {s}
    ensures if removed then IsWithout(old(rax.tree), s, rax.tree) else rax.tree == old(rax.tree)
    ensures removed ==> StaysAsCompressed(old(rax.tree), s, rax.tree)
    ensures multiset(freed) == multiset(old(rax.repr) - rax.repr)
  {
    var found, h, parent, idx, ts;
    ghost var p;
    found, h, parent, idx, ts, p := FindNode(rax, s);
    removed, prev, freed := found, None, [];
    if found {
      prev := h.val;
      ghost var t0, before, added := rax.tree, rax.repr, {};
      added, freed := RemoveAtNode(rax, h, parent, idx, ts, s, p);
      ReleasesExactly(before, freed, rax.repr);
      StaysExactly(t0, s, rax.tree);
    } else {
      WithoutAbsent(rax.Contents(), s);
    }
  }
}
