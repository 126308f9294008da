/** The radix tree of rax.c: node objects edited in place, counters kept beside them. */
module Rax {
  import opened Wrappers
  import opened Bytes
  import opened RaxTree
  import opened RaxZipper
  import opened RaxOrder
  import opened RaxHeap
  import opened RaxEdit

  /** Where a walk for s stopped: i bytes consumed, at node h, in a compressed node before
      its character sp. The walk goes on as long as the next byte of s matches. */
  predicate Stopped(st: Stack, h: Node, s: Key, i: nat, sp: nat) {
    && StackOk(st) && i <= |s|
    && (if h.compr then sp < |h.chars| else sp == 0)
    && Path(st) + h.chars[..sp] == s[..i]
    && (i < |s| ==> if h.compr then h.chars[sp] != s[i] else s[i] !in h.chars)
  }

  /** The walk stands at a node spelled by the first i bytes of s. */
  predicate OnPath(tree: Node, st: Stack, t: Node, s: Key, i: nat) {
    Chain(tree, st, t) && Good(t, false) && StackOk(st) && i <= |s| && Path(st) == s[..i]
  }

  lemma WalkDown(tree: Node, st: Stack, t: Node, s: Key, i: nat, k: nat, i': nat)
    requires OnPath(tree, st, t, s, i) && k < |t.kids| && i' <= |s|
    requires s[..i'] == s[..i] + Label(t, k)
    ensures OnPath(tree, st + [Frame(t, k)], t.kids[k], s, i')
  {
    PushStack(st, Frame(t, k), t.kids[k]);
  }

  /** The walk stopped at the very node of s. */
  predicate Found(h: Node, s: Key, i: nat, sp: nat) {
    i == |s| && (!h.compr || sp == 0)
  }

  /** What the walk for s does not consume makes one node below the node where it stops, or an edge
      and one node. */
  ghost predicate Snug(tree: Node, s: Key) {
    forall st, h, i, sp | Chain(tree, st, h) && Stopped(st, h, s, i, sp) :: SnugAt(h, s, i)
  }

  lemma FirstStop(tree: Node, st: Stack, h: Node, s: Key, i: nat, sp: nat)
    requires Chain(tree, st, h) && Stopped(st, h, s, i, sp) && st != []
    ensures Format(tree) && s != [] && st[0] == Frame(tree, Edge(tree, s)) && Edge(tree, s) < |tree.kids|
    ensures FrameIn(st[0]) && FrameOk(st[0]) && |Step(st[0])| <= i <= |s| && Chain(Child(st[0]), st[1..], h)
    ensures Stopped(st[1..], h, s[|Step(st[0])|..], i - |Step(st[0])|, sp)
  {
    FirstFrame(tree, st, h);
    hide Chain, Path;
    DropStep(Step(st[0]), Path(st[1..]), h.chars[..sp], s, i);
  }

  lemma DropStep(l: Key, p: Key, c: Key, s: Key, i: nat)
    requires i <= |s| && (l + p) + c == s[..i]
    ensures |l| <= i && l <= s && p + c == s[|l|..][..i - |l|]
  {
    assert (l + p) + c == l + (p + c);
    assert s[..i][..|l|] == l;
    assert s[..i][|l|..] == s[|l|..][..i - |l|];
  }

  lemma SameStop(tree: Node, g: Node, i: nat, sp: nat, h: Node, j: nat, sq: nat, s: Key)
    requires Chain(tree, [], g) && Stopped([], g, s, i, sp) && Chain(tree, [], h) && Stopped([], h, s, j, sq)
    ensures g == h && i == j
  {
    assert Path([]) == [] && h.chars[..sp] == s[..i] && h.chars[..sq] == s[..j];
    assert i == sp && j == sq;
  }

  /** Where the walk stops at once no edge goes on. */
  lemma NoFirstEdge(tree: Node, h: Node, s: Key, i: nat, sp: nat)
    requires Chain(tree, [], h) && Stopped([], h, s, i, sp) && Format(tree) && s != []
    ensures Edge(tree, s) == |tree.kids|
  {
    assert Path([]) == [] && h.chars[..sp] == s[..i];
  }

  /** The walk for a string stops at one place only. */
  lemma {:induction false} OneStop(tree: Node, a: Stack, g: Node, i: nat, sp: nat, b: Stack, h: Node, j: nat, sq: nat,
                                   s: Key)
    requires Chain(tree, a, g) && Stopped(a, g, s, i, sp) && Chain(tree, b, h) && Stopped(b, h, s, j, sq)
    ensures g == h && i == j
    decreases |a|
  {
    hide *;
    if a != [] { FirstStop(tree, a, g, s, i, sp); }
    if b != [] { FirstStop(tree, b, h, s, j, sq); }
    if a == [] && b == [] {
      SameStop(tree, g, i, sp, h, j, sq, s);
    } else if a == [] {
      NoFirstEdge(tree, g, s, i, sp);
    } else if b == [] {
      NoFirstEdge(tree, h, s, j, sq);
    } else {
      var l := Step(a[0]);
      OneStop(Child(a[0]), a[1..], g, i - |l|, sp, b[1..], h, j - |l|, sq, s[|l|..]);
    }
  }

  lemma SnugStop(tree: Node, st: Stack, h: Node, s: Key, i: nat, sp: nat)
    requires Chain(tree, st, h) && Stopped(st, h, s, i, sp)
    ensures Snug(tree, s) <==> SnugAt(h, s, i)
  {
    forall a, g, j, sq | Chain(tree, a, g) && Stopped(a, g, s, j, sq) ensures g == h && j == i {
      OneStop(tree, a, g, j, sq, st, h, i, sp, s);
    }
  }

  /** The key is the path to the node where the walk stopped and what it did not consume. */
  lemma StoppedRest(h: Node, st: Stack, s: Key, i: nat, sp: nat)
    requires Stopped(st, h, s, i, sp)
    ensures StackOk(st) && i <= |s| && sp <= |h.chars| && s == Path(st) + (h.chars[..sp] + s[i..])
    ensures (if h.compr then sp < |h.chars| else sp == 0)
    ensures i < |s| ==> if h.compr then h.chars[sp] != s[i] else s[i] !in h.chars
    ensures Found(h, s, i, sp) ==> Path(st) == s
  {
    assert s == s[..i] + s[i..];
  }

  /** Below the node where the walk stopped there is no key of s. */
  lemma StoppedLookup(h: Node, s: Key, i: nat, sp: nat)
    requires Good(h, false) && i <= |s| && (if h.compr then sp < |h.chars| else sp == 0)
    requires i < |s| ==> if h.compr then h.chars[sp] != s[i] else s[i] !in h.chars
    ensures Lookup(h, h.chars[..sp] + s[i..]) == if Found(h, s, i, sp) then h.val else None
  {
    var r := h.chars[..sp] + s[i..];
    if r != [] {
      if h.compr {
        assert i < |s| ==> r[sp] == s[i];
      } else {
        assert r[0] == s[i];
      }
    }
  }

  /** Where the walk stops decides what the tree maps s to. */
  lemma WalkLookup(t: Node, st: Stack, h: Node, s: Key, i: nat, sp: nat)
    requires Good(t, false) && Chain(t, st, h) && Stopped(st, h, s, i, sp)
    ensures Lookup(t, s) == if Found(h, s, i, sp) then h.val else None
    ensures Found(h, s, i, sp) ==> Path(st) == s
  {
    StoppedRest(h, st, s, i, sp);
    hide Plug, CtxGood, Fits, Chain, Good, Lookup, Stopped, Path;
    ChainPlug(t, st, h);
    ChainGood(t, st, h, false);
    var r := h.chars[..sp] + s[i..];
    PlugInside(st, h, r);
    StoppedLookup(h, s, i, sp);
  }

  lemma SetsMap(t0: Node, t: Node, s: Key, v: Ptr, canon: bool)
    requires Sets(t0, t, s, v, canon)
    ensures MapOf(t) == MapOf(t0)[s := v]
    ensures |MapOf(t)| == |MapOf(t0)| + if s in MapOf(t0) then 0 else 1
    ensures Good(t, canon)
  {
    MapUpdate(t0, t, s, v);
    UpdateSize(MapOf(t0), s, v);
  }

  /** What placing s means for the maps. */
  lemma PlacedMap(t0: Node, t: Node, s: Key, v: Ptr, overwrite: bool, prev: Option<Ptr>, canon: bool)
    requires Good(t0, false) && prev == Lookup(t0, s)
    requires if prev.None? || overwrite then Sets(t0, t, s, v, canon) else t == t0
    ensures Good(t, false) && prev == if s in MapOf(t0) then Some(MapOf(t0)[s]) else None
    ensures MapOf(t) == if prev.None? || overwrite then MapOf(t0)[s := v] else MapOf(t0)
    ensures |MapOf(t)| == |MapOf(t0)| + if prev.None? then 1 else 0
    ensures Good(t0, canon) ==> Good(t, canon)
  {
    MapLookup(t0, s);
    if prev.None? || overwrite {
      SetsMap(t0, t, s, v, canon);
    }
  }

  /** One turn of the walk: compare the characters of node h, from byte i0 of s on. When the
      whole edge matches, j is the index of the child; otherwise j is where the walk stops. */
  method MatchNode(h: RaxNode, ghost t: Node, s: Key, i0: nat) returns (through: bool, i: nat, j: nat)
    requires h.compr == t.compr && h.chars == t.chars != [] && Format(t) && i0 < |s|
    ensures i <= |s|
    ensures through ==> j < |t.kids| && s[..i] == s[..i0] + Label(t, j)
    ensures !through && t.compr ==> j < |t.chars| && s[..i] == s[..i0] + t.chars[..j]
    ensures !through && t.compr && i < |s| ==> t.chars[j] != s[i]
    ensures !through && !t.compr ==> i == i0 && s[i] !in t.chars
  {
    i, j := i0, 0;
    if h.compr {
      while j < |h.chars| && i < |s| && h.chars[j] == s[i]
        invariant j <= |h.chars| && i == i0 + j <= |s|
        invariant forall x | 0 <= x < j :: h.chars[x] == s[i0 + x]
      {
        j, i := j + 1, i + 1;
      }
      assert h.chars[..|h.chars|] == h.chars;
      if j != |h.chars| { return false, i, j; }
      return true, i, 0;
    } else {
      while j < |h.chars| && h.chars[j] != s[i]
        invariant j <= |h.chars| && s[i] !in h.chars[..j]
      {
        j := j + 1;
      }
      if j == |h.chars| { return false, i, j; }
      return true, i + 1, j;
    }
  }

  /** The position search of raxAddChild. */
  method FindPos(v: Key, c: Byte) returns (pos: nat)
    ensures pos == InsertPos(v, c)
  {
    pos := 0;
    while pos < |v| && v[pos] <= c
      invariant pos <= |v| && InsertPos(v, c) == pos + InsertPos(v[pos..], c)
    {
      assert v[pos..][1..] == v[pos + 1..];
      pos := pos + 1;
    }
  }

  class Rax {
    var head: RaxNode
    var numele: int
    var numnodes: int
    ghost var shape: Shape
    ghost var tree: Node
    ghost var repr: set<RaxNode>

    ghost predicate Linked()
      reads this, repr
    {
      var held := head == shape.obj && repr == Objs(shape) && Apart(shape) && Rep(shape, tree);
      held
    }

    ghost predicate Valid()
      reads this, repr
    {
      Linked() && Good(tree, false) && numele == |MapOf(tree)| && numnodes == Nodes(tree)
    }

    ghost function Contents(): map<Key, Ptr>
      reads this, repr
      requires Valid()
    {
      MapOf(tree)
    }

    /** An empty tree is a single node that is no key. */
    constructor ()
      ensures Valid() && fresh(repr) && Contents() == map[] && Good(tree, true)
    {
      var n := new RaxNode(None, false, [], []);
      head, numele, numnodes := n, 0, 1;
      shape, tree, repr := Shape(n, []), EMPTY, {n};
    }

    method LowWalk(s: Key)
      returns (i: nat, h: RaxNode, parent: RaxNode?, idx: nat, splitpos: nat, ts: seq<RaxNode>, ghost p: Pos)
      requires Valid()
      ensures h in repr && i <= |s|
      ensures PosObjs(p) == repr && Ancestors(p.ss, ts)
      ensures At(p, head, h, parent, idx)
      ensures Chain(tree, p.st, p.t) && Good(p.t, false)
      ensures Stopped(p.st, p.t, s, i, splitpos)
    {
      h, parent, idx, ts, i, splitpos := head, null, 0, [], 0, 0;
      p := Pos([], [], shape, tree);
      while h.chars != [] && i < |s|
        invariant PosObjs(p) == repr && Ancestors(p.ss, ts) && At(p, head, h, parent, idx)
        invariant OnPath(tree, p.st, p.t, s, i) && splitpos == 0
        decreases p.t
      {
        var through, i', j := MatchNode(h, p.t, s, i);
        if !through {
          i, splitpos := i', if h.compr then j else 0;
          return;
        }
        GoDown(p, head, h, parent, idx, j);
        AncestorsDown(p, h, j, ts);
        WalkDown(tree, p.st, p.t, s, i, j, i');
        ts, p := ts + [h], Down(p, j);
        h, parent, idx, i := h.kids[j], h, j, i';
      }
    }

    /** Store the link to n, the root of a new subtree, in the slot that held the link to h. */
    method SetLink(parent: RaxNode?, idx: nat, h: RaxNode, n: RaxNode, ghost q: Pos)
      requires Slot(q.ss, q.st, head, h, parent, idx)
      requires q.s.obj == n && Rep(q.s, q.t) && Apart(q.s) && CtxObjs(q.ss) !! Objs(q.s)
      modifies this`head, parent
      ensures At(q, head, n, parent, idx)
    {
      if parent == null {
        head := n;
      } else {
        ghost var up := q.ss[..|q.ss| - 1];
        assert parent !in CtxObjs(up);
        parent.kids := parent.kids[idx := n];
        assert CtxRep(up, Init(q.st), parent);
      }
    }

    /** Steps 2, 4 and 5 of ALGO 1: the split node, above what remains of h after character j. */
    method NewSplit(h: RaxNode, j: nat, ghost s: Shape, ghost t: Node) returns (split: RaxNode, ghost splitS: Shape)
      requires s.obj == h && Rep(s, t) && Apart(s) && Good(t, false) && t.compr && j < |t.chars|
      modifies this`numnodes
      ensures splitS.obj == split && Rep(splitS, SplitNode(t, j)) && Apart(splitS)
      ensures Objs(s) <= Objs(splitS) + {h} && h !in Objs(splitS)
      ensures fresh(Objs(splitS) - Objs(s))
      ensures numnodes == old(numnodes) + if j + 1 < |t.chars| then 1 else 0
    {
      var postfix := h.kids[0];
      ghost var restS := s.kids[0];
      ObjsAllocated(s);
      if |h.chars| - j - 1 > 0 {
        postfix := NewAbove(None, |h.chars| - j - 1 > 1, h.chars[j + 1..], postfix, SplitRest(t, j), restS);
        restS := Shape(postfix, [restS]);
        numnodes := numnodes + 1;
      }
      split := NewAbove(if j == 0 then h.val else None, false, [h.chars[j]], postfix, SplitNode(t, j), restS);
      splitS := Shape(split, [restS]);
    }

    /** Replace the compressed node h by its first j characters above a new subtree. */
    method TrimAbove(h: RaxNode, parent: RaxNode?, idx: nat, j: nat, below: RaxNode, ghost p: Pos, ghost s: Shape,
                     ghost t: Node)
      returns (trimmed: RaxNode, ghost q: Pos)
      requires Slot(p.ss, p.st, head, h, parent, idx) && h.val == p.t.val && h.chars == p.t.chars && 0 < j < |h.chars|
      requires s.obj == below && Rep(s, t) && Apart(s) && CtxObjs(p.ss) !! Objs(s)
      modifies this`head, parent
      ensures At(q, head, trimmed, parent, idx) && fresh(trimmed) && trimmed.kids == [below]
      ensures q == Pos(p.ss, p.st, Shape(trimmed, [s]), Link(p.t.val, p.t.chars[..j], t))
      ensures Objs(q.s) == {trimmed} + Objs(s)
    {
      CtxObjsAllocated(p.ss);
      ObjsAllocated(s);
      trimmed := NewAbove(h.val, j > 1, h.chars[..j], below, Link(p.t.val, p.t.chars[..j], t), s);
      q := Pos(p.ss, p.st, Shape(trimmed, [s]), Link(p.t.val, p.t.chars[..j], t));
      SetLink(parent, idx, h, trimmed, q);
    }

    /** Step 2 of ALGO 2: what h continues with from character j on, as the node of the new key. */
    method NewPostfix(h: RaxNode, j: nat, data: Ptr, ghost s: Shape, ghost t: Node)
      returns (postfix: RaxNode, ghost postS: Shape)
      requires s.obj == h && Rep(s, t) && Apart(s) && Good(t, false) && t.compr && 0 < j < |t.chars|
      modifies this`numnodes
      ensures postS.obj == postfix && Rep(postS, Link(Some(data), t.chars[j..], t.kids[0])) && Apart(postS)
      ensures Objs(s) <= Objs(postS) + {h} && h !in Objs(postS)
      ensures fresh(Objs(postS) - Objs(s))
      ensures numnodes == old(numnodes) + 1
    {
      ObjsAllocated(s);
      postfix := NewAbove(Some(data), |h.chars| - j > 1, h.chars[j..], h.kids[0],
                          Link(Some(data), t.chars[j..], t.kids[0]), s.kids[0]);
      postS := Shape(postfix, [s.kids[0]]);
      numnodes := numnodes + 1;
    }

    /** ALGO 2: s ends before character j > 0 of the compressed node h, which is cut there. */
    method SplitForPrefix(h: RaxNode, parent: RaxNode?, idx: nat, j: nat, data: Ptr, ghost p: Pos)
      returns (trimmed: RaxNode, ghost q: Pos)
      requires At(p, head, h, parent, idx) && Good(p.t, false) && p.t.compr && 0 < j < |p.t.chars|
      modifies this`head, this`numnodes, parent
      ensures At(q, head, trimmed, parent, idx) && fresh(Objs(q.s) - Objs(p.s)) && q.ss == p.ss && q.st == p.st
      ensures q.t == Link(p.t.val, p.t.chars[..j], Link(Some(data), p.t.chars[j..], p.t.kids[0]))
      ensures Releases(PosObjs(p), [h], PosObjs(q))
      ensures numnodes == old(numnodes) + 1
    {
      CtxObjsAllocated(p.ss);
      ghost var postS;
      var postfix;
      postfix, postS := NewPostfix(h, j, data, p.s, p.t);
      trimmed, q := TrimAbove(h, parent, idx, j, postfix, p, postS, Link(Some(data), p.t.chars[j..], p.t.kids[0]));
    }

    lemma OnlyKid(t: Node)
      requires Good(t, false) && t.compr
      ensures |t.kids| == 1
    {
    }

    /** ALGO 1 with j > 0: the split node goes below the first j characters of h. */
    method SplitInside(h: RaxNode, parent: RaxNode?, idx: nat, j: nat, ghost p: Pos)
      returns (split: RaxNode, trimmed: RaxNode, ghost q: Pos)
      requires At(p, head, h, parent, idx) && Good(p.t, false) && p.t.compr && 0 < j < |p.t.chars|
      modifies this`head, this`numnodes, parent
      ensures At(q, head, trimmed, parent, idx) && trimmed.kids == [split]
      ensures fresh(Objs(q.s) - Objs(p.s)) && q.ss == p.ss && q.st == p.st
      ensures q.t == Link(p.t.val, p.t.chars[..j], SplitNode(p.t, j))
      ensures Objs(p.s) <= Objs(q.s) + {h} && h !in Objs(q.s)
      ensures numnodes == old(numnodes) + 1 + if j + 1 < |p.t.chars| then 1 else 0
    {
      hide *;
      OnlyKid(p.t);
      AtParts(p, head, h, parent, idx);
      CtxObjsAllocated(p.ss);
      ghost var splitS;
      split, splitS := NewSplit(h, j, p.s, p.t);
      numnodes := numnodes + 1;
      trimmed, q := TrimAbove(h, parent, idx, j, split, p, splitS, SplitNode(p.t, j));
    }

    /** Steps 1 to 5 of ALGO 1: a mismatch at character j of the compressed node h. The
        insertion continues at the split node. */
    method SplitForMismatch(h: RaxNode, parent: RaxNode?, idx: nat, j: nat, ghost p: Pos)
      returns (split: RaxNode, parent': RaxNode?, idx': nat, ghost q: Pos)
      requires At(p, head, h, parent, idx) && Good(p.t, false) && p.t.compr && j < |p.t.chars|
      modifies this`head, this`numnodes, parent
      ensures At(q, head, split, parent', idx') && fresh(PosObjs(q) - PosObjs(p))
      ensures q.t == SplitNode(p.t, j)
      ensures q.st == SplitStack(p.st, p.t, j) && Releases(PosObjs(p), [h], PosObjs(q))
      ensures numnodes == old(numnodes) + (if j > 0 then 1 else 0) + (if j + 1 < |p.t.chars| then 1 else 0)
    {
      if j == 0 {
        CtxObjsAllocated(p.ss);
        ghost var splitS;
        split, splitS := NewSplit(h, j, p.s, p.t);
        parent', idx', q := parent, idx, Pos(p.ss, p.st, splitS, SplitNode(p.t, j));
        SetLink(parent, idx, h, split, q);
      } else {
        split, parent', q := SplitInside(h, parent, idx, j, p);
        GoDown(q, head, parent', parent, idx, 0);
        idx', q := 0, Down(q, 0);
      }
    }

    /** Give h, a plain node, the layout of t: one more child, at position pos. */
    method InsertKid(h: RaxNode, parent: RaxNode?, idx: nat, pos: nat, child: RaxNode, ghost p: Pos, ghost t: Node,
                     compr: bool, chars: Key)
      requires At(p, head, h, parent, idx) && child !in PosObjs(p) && Rep(Shape(child, []), EMPTY)
      requires pos <= |p.t.kids| && t == Node(p.t.val, compr, chars, InsertAt(p.t.kids, pos, EMPTY))
      modifies h
      ensures At(Pos(p.ss, p.st, KidsWith(p.s, pos, child), t), head, h, parent, idx)
      ensures h.kids == InsertAt(old(h.kids), pos, child)
    {
      hide *;
      LeafObjs(child);
      AtParts(p, head, h, parent, idx);
      ghost var links := h.kids;
      h.compr, h.chars, h.kids := compr, chars, InsertAt(h.kids, pos, child);
      AtInsert(p, head, h, parent, idx, pos, child, links, t);
    }

    /** raxAddChild: a new empty child behind byte c, kept in order. */
    method AddChildTo(h: RaxNode, parent: RaxNode?, idx: nat, c: Byte, ghost p: Pos)
      returns (child: RaxNode, pos: nat, ghost q: Pos)
      requires At(p, head, h, parent, idx) && !p.t.compr && Format(p.t)
      modifies h
      ensures pos < |h.kids| && child == h.kids[pos] && fresh(child) && At(q, head, h, parent, idx)
      ensures Frame(q.t, pos) == AddChild(p.t, c) && q.ss == p.ss && q.st == p.st && PosObjs(q) == PosObjs(p) + {child}
    {
      ObjsAllocated(p.s);
      CtxObjsAllocated(p.ss);
      child := NewLeaf();
      pos := FindPos(h.chars, c);
      InsertKid(h, parent, idx, pos, child, p, AddChild(p.t, c).node, h.compr, InsertAt(h.chars, pos, c));
      ObjsInsert(p.s, pos, child);
      q := Pos(p.ss, p.st, KidsWith(p.s, pos, child), AddChild(p.t, c).node);
    }

    /** raxCompressNode: a leaf becomes a compressed node above a new empty child. */
    method CompressTo(h: RaxNode, parent: RaxNode?, idx: nat, l: Key, ghost p: Pos)
      returns (child: RaxNode, ghost q: Pos)
      requires At(p, head, h, parent, idx) && !p.t.compr && p.t.chars == [] && p.t.kids == []
      modifies h
      ensures h.kids == [child] && fresh(child) && At(q, head, h, parent, idx)
      ensures Frame(q.t, 0) == CompressNode(p.t, l) && q.ss == p.ss && q.st == p.st &&
              PosObjs(q) == PosObjs(p) + {child}
    {
      ObjsAllocated(p.s);
      CtxObjsAllocated(p.ss);
      child := NewLeaf();
      InsertKid(h, parent, idx, 0, child, p, CompressNode(p.t, l).node, true, l);
      ObjsInsert(p.s, 0, child);
      q := Pos(p.ss, p.st, KidsWith(p.s, 0, child), CompressNode(p.t, l).node);
    }

    method GrowChild(h: RaxNode, parent: RaxNode?, idx: nat, c: Byte, ghost p: Pos)
      returns (child: RaxNode, k: nat, ghost q: Pos)
      requires At(p, head, h, parent, idx) && !p.t.compr && Format(p.t)
      modifies h
      ensures At(q, head, child, h, k) && fresh(child) && PosObjs(q) == PosObjs(p) + {child}
      ensures q.t == EMPTY && q.st == p.st + [AddChild(p.t, c)] && k == AddChild(p.t, c).idx
    {
      child, k, q := AddChildTo(h, parent, idx, c, p);
      GoDown(q, head, h, parent, idx, k);
      q := Down(q, k);
    }

    method GrowCompressed(h: RaxNode, parent: RaxNode?, idx: nat, l: Key, ghost p: Pos)
      returns (child: RaxNode, ghost q: Pos)
      requires At(p, head, h, parent, idx) && !p.t.compr && p.t.chars == [] && p.t.kids == []
      modifies h
      ensures At(q, head, child, h, 0) && fresh(child) && PosObjs(q) == PosObjs(p) + {child}
      ensures q.t == EMPTY && q.st == p.st + [CompressNode(p.t, l)]
    {
      child, q := CompressTo(h, parent, idx, l, p);
      GoDown(q, head, h, parent, idx, 0);
      q := Down(q, 0);
    }

    lemma GrownBy(t: Node, s: Key, i: nat)
      requires i < |s| && !t.compr && Format(t)
      ensures if t.chars == [] && |s| - i > 1
              then Turn(t, s, i) == (if |s| - i > NODE_MAX_SIZE then NODE_MAX_SIZE else |s| - i) &&
                   Grown(t, s, i) == CompressNode(t, s[i..i + Turn(t, s, i)])
              else Turn(t, s, i) == 1 && Grown(t, s, i) == AddChild(t, s[i])
      ensures t.chars == [] ==> t.kids == []
    {
    }

    /** One turn of the growth loop. */
    method GrowStep(h: RaxNode, parent: RaxNode?, idx: nat, s: Key, i: nat, ghost p: Pos)
      returns (child: RaxNode, k: nat, i': nat, ghost q: Pos)
      requires At(p, head, h, parent, idx) && !p.t.compr && Format(p.t) && i < |s|
      modifies h
      ensures At(q, head, child, h, k) && fresh(child) && PosObjs(q) == PosObjs(p) + {child}
      ensures q.t == EMPTY && q.st == p.st + [Grown(p.t, s, i)] && i' == i + Turn(p.t, s, i)
    {
      hide *;
      AtParts(p, head, h, parent, idx);
      GrownBy(p.t, s, i);
      if h.chars == [] && |s| - i > 1 {
        var comprsize := |s| - i;
        if comprsize > NODE_MAX_SIZE { comprsize := NODE_MAX_SIZE; }
        k, i' := 0, i + comprsize;
        child, q := GrowCompressed(h, parent, idx, s[i..i'], p);
      } else {
        i' := i + 1;
        child, k, q := GrowChild(h, parent, idx, s[i], p);
      }
    }

    /** An insertion of s into t0 under way: the first i bytes are placed and h comes next. */
    ghost predicate Inserting(p: Pos, h: RaxNode, parent: RaxNode?, idx: nat, t0: Node, s: Key, i: nat, canon: bool)
      reads this, PosObjs(p)
    {
      var at := At(p, head, h, parent, idx);
      var growing := GrowingTo(t0, p.st, p.t, s, i, canon, numnodes);
      at && growing
    }

    lemma Placed(p: Pos, h: RaxNode, parent: RaxNode?, idx: nat, t0: Node, s: Key, i: nat, canon: bool)
      requires At(p, head, h, parent, idx) && GrowingTo(t0, p.st, p.t, s, i, canon, numnodes)
      ensures Inserting(p, h, parent, idx, t0, s, i, canon)
    {
    }

    lemma PlacesNext(p: Pos, h: RaxNode, parent: RaxNode?, idx: nat, t0: Node, s: Key, i: nat, canon: bool)
      requires Inserting(p, h, parent, idx, t0, s, i, canon) && i < |s|
      ensures At(p, head, h, parent, idx) && !p.t.compr && Format(p.t) && 0 < Turn(p.t, s, i) <= |s| - i
      ensures GrowingTo(t0, p.st + [Grown(p.t, s, i)], EMPTY, s, i + Turn(p.t, s, i), canon, numnodes + 1)
    {
      GrowingToStep(t0, p.st, p.t, s, i, canon, numnodes);
    }

    method GrowTurn(h: RaxNode, parent: RaxNode?, idx: nat, s: Key, i: nat, ghost p: Pos, ghost t0: Node,
                    ghost canon: bool)
      returns (child: RaxNode, k: nat, i': nat, ghost q: Pos)
      requires Inserting(p, h, parent, idx, t0, s, i, canon) && i < |s|
      modifies h, this`numnodes
      ensures Inserting(q, child, h, k, t0, s, i', canon) && i < i' <= |s|
      ensures Spoiled(p.st, p.t, s, i) ==> Spoiled(q.st, q.t, s, i')
      ensures fresh(child) && PosObjs(q) == PosObjs(p) + {child}
    {
      hide *;
      PlacesNext(p, h, parent, idx, t0, s, i, canon);
      if Spoiled(p.st, p.t, s, i) { SpoiledStep(p.st, p.t, s, i); }
      child, k, i', q := GrowStep(h, parent, idx, s, i, p);
      numnodes := numnodes + 1;
      Placed(q, child, h, k, t0, s, i', canon);
    }

    lemma PlacesAtObject(p: Pos, h: RaxNode, parent: RaxNode?, idx: nat, t0: Node, s: Key, i: nat, canon: bool)
      requires Inserting(p, h, parent, idx, t0, s, i, canon)
      ensures h in PosObjs(p)
    {
    }

    /** The loop that inserts the rest of s below h. */
    method GrowPath(h0: RaxNode, parent0: RaxNode?, idx0: nat, s: Key, i0: nat, ghost p: Pos, ghost t0: Node,
                    ghost canon: bool)
      returns (h: RaxNode, parent: RaxNode?, idx: nat, ghost q: Pos, ghost added: set<RaxNode>)
      requires Inserting(p, h0, parent0, idx0, t0, s, i0, canon) && i0 <= |s|
      modifies this`numnodes, PosObjs(p)
      ensures Inserting(q, h, parent, idx, t0, s, |s|, canon) && fresh(added)
      ensures PosObjs(q) == PosObjs(p) + added
      ensures Spoiled(p.st, p.t, s, i0) ==> Spoiled(q.st, q.t, s, |s|)
    {
      hide *;
      var i;
      h, parent, idx, i, q, added := h0, parent0, idx0, i0, p, {};
      while i < |s|
        invariant i <= |s| && Inserting(q, h, parent, idx, t0, s, i, canon)
        invariant Spoiled(p.st, p.t, s, i0) ==> Spoiled(q.st, q.t, s, i)
        invariant fresh(added) && PosObjs(q) == PosObjs(p) + added
      {
        PlacesAtObject(q, h, parent, idx, t0, s, i, canon);
        var child, k;
        child, k, i, q := GrowTurn(h, parent, idx, s, i, q, t0, canon);
        h, parent, idx, added := child, h, k, added + {child};
      }
    }

    /** raxSetData: h becomes the node of a key. */
    method SetData(h: RaxNode, parent: RaxNode?, idx: nat, data: Ptr, ghost p: Pos)
      requires At(p, head, h, parent, idx)
      modifies h
      ensures At(Pos(p.ss, p.st, p.s, p.t.(val := Some(data))), head, h, parent, idx)
    {
      KidsApart(p.s);
      h.val := Some(data);
    }

    lemma WholeShape(p: Pos, h: RaxNode, parent: RaxNode?, idx: nat)
      requires At(p, head, h, parent, idx) && StackOk(p.st)
      ensures CtxApart(p.ss) && SPlug(p.ss, p.s).obj == head && Objs(SPlug(p.ss, p.s)) == PosObjs(p)
      ensures Apart(SPlug(p.ss, p.s)) && Rep(SPlug(p.ss, p.s), Plug(p.st, p.t))
    {
      FocusRoot(p.ss, p.st, p.s, p.t);
    }

    /** The objects around a position become the tree. */
    ghost method Commit(p: Pos, h: RaxNode, parent: RaxNode?, idx: nat)
      requires At(p, head, h, parent, idx) && StackOk(p.st)
      modifies this`shape, this`tree, this`repr
      ensures Linked() && tree == Plug(p.st, p.t) && repr == PosObjs(p)
    {
      hide At, Rep, Apart, Objs, Plug, SPlug, PosObjs, CtxObjs, CtxApart;
      WholeShape(p, h, parent, idx);
      shape, tree, repr := SPlug(p.ss, p.s), Plug(p.st, p.t), PosObjs(p);
    }

    /** The tree has a node for s. */
    method InsertHere(h: RaxNode, parent: RaxNode?, idx: nat, s: Key, data: Ptr, ghost p: Pos, ghost canon: bool)
      requires Valid() && At(p, head, h, parent, idx) && PosObjs(p) == repr
      requires Chain(tree, p.st, p.t) && StackOk(p.st) && Path(p.st) == s && Good(tree, canon)
      modifies this`shape, this`tree, this`repr, h
      ensures Linked() && Sets(old(tree), tree, s, data, canon) && numnodes == Nodes(tree) && repr == old(repr)
    {
      SetDone(tree, p.st, p.t, data, canon);
      SetData(h, parent, idx, data, p);
      Commit(Pos(p.ss, p.st, p.s, p.t.(val := Some(data))), h, parent, idx);
    }

    /** The key ends inside the compressed node h: ALGO 2. */
    method InsertInside(h: RaxNode, parent: RaxNode?, idx: nat, j: nat, s: Key, data: Ptr, ghost p: Pos,
                        ghost canon: bool)
      returns (ghost added: set<RaxNode>)
      requires Valid() && At(p, head, h, parent, idx) && PosObjs(p) == repr
      requires Chain(tree, p.st, p.t) && StackOk(p.st) && Good(tree, canon)
      requires Good(p.t, false) && p.t.compr && 0 < j < |p.t.chars| && Path(p.st) + p.t.chars[..j] == s
      modifies this`head, this`numnodes, this`shape, this`tree, this`repr, parent
      ensures Linked() && Sets(old(tree), tree, s, data, canon) && numnodes == Nodes(tree)
      ensures fresh(added) && repr <= old(repr) + added && Releases(old(repr), [h], repr)
    {
      PrefixDone(tree, p.st, p.t, j, data, canon);
      ghost var q, trimmed;
      trimmed, q := SplitForPrefix(h, parent, idx, j, data, p);
      added := Objs(q.s) - Objs(p.s);
      Commit(q, trimmed, parent, idx);
    }

    /** ALGO 1 puts the insertion at the split node. */
    method BeginAtSplit(h0: RaxNode, parent0: RaxNode?, idx0: nat, i: nat, j: nat, s: Key, ghost p: Pos,
                        ghost canon: bool)
      returns (h: RaxNode, parent: RaxNode?, idx: nat, ghost q: Pos, ghost added: set<RaxNode>)
      requires At(p, head, h0, parent0, idx0) && p.t.compr && Good(p.t, false) && numnodes == Nodes(tree)
      requires Good(tree, false) && Chain(tree, p.st, p.t) && Stopped(p.st, p.t, s, i, j) && i < |s|
      requires Good(tree, canon) && (canon ==> SnugAt(p.t, s, i))
      modifies this`head, this`numnodes, parent0
      ensures Inserting(q, h, parent, idx, tree, s, i, canon) && fresh(added) && PosObjs(q) <= PosObjs(p) + added
      ensures SnugAt(q.t, s, i) == SnugAt(p.t, s, i) && Releases(PosObjs(p), [h0], PosObjs(q))
    {
      GrowingToFromSplit(tree, p.st, p.t, j, s, i, canon);
      h, parent, idx, q := SplitForMismatch(h0, parent0, idx0, j, p);
      added := PosObjs(q) - PosObjs(p);
    }

    /** Bytes of the key remain: ALGO 1 when h is compressed. */
    method BeginInsert(h0: RaxNode, parent0: RaxNode?, idx0: nat, i: nat, j: nat, s: Key, ghost p: Pos,
                       ghost canon: bool)
      returns (h: RaxNode, parent: RaxNode?, idx: nat, ghost q: Pos, ghost added: set<RaxNode>,
               ghost freed: seq<RaxNode>)
      requires At(p, head, h0, parent0, idx0) && Good(p.t, false) && numnodes == Nodes(tree)
      requires Good(tree, false) && Chain(tree, p.st, p.t) && Stopped(p.st, p.t, s, i, j) && i < |s|
      requires Good(tree, canon) && (canon ==> SnugAt(p.t, s, i))
      modifies this`head, this`numnodes, parent0
      ensures Inserting(q, h, parent, idx, tree, s, i, canon) && fresh(added) && PosObjs(q) <= PosObjs(p) + added
      ensures SnugAt(q.t, s, i) == SnugAt(p.t, s, i) && Releases(PosObjs(p), freed, PosObjs(q))
    {
      if h0.compr {
        h, parent, idx, q, added := BeginAtSplit(h0, parent0, idx0, i, j, s, p, canon);
        freed := [h0];
      } else {
        GrowingToFromPlain(tree, p.st, p.t, s, i, canon);
        h, parent, idx, q, added, freed := h0, parent0, idx0, p, {}, [];
      }
    }

    /** The growth loop is over. */
    method FinishInsert(h: RaxNode, parent: RaxNode?, idx: nat, s: Key, data: Ptr, ghost p: Pos, ghost t0: Node,
                        ghost canon: bool)
      requires Inserting(p, h, parent, idx, t0, s, |s|, canon)
      modifies this`shape, this`tree, this`repr, h
      ensures Linked() && Sets(t0, tree, s, data, canon) && numnodes == Nodes(tree) && repr == PosObjs(p)
      ensures Spoiled(p.st, p.t, s, |s|) ==> !Good(tree, true)
    {
      GrowingDone(t0, p.st, p.t, s, data, canon, numnodes);
      if Spoiled(p.st, p.t, s, |s|) { SpoiledDone(p.st, s, data); }
      SetData(h, parent, idx, data, p);
      Commit(Pos(p.ss, p.st, p.s, p.t.(val := Some(data))), h, parent, idx);
    }

    /** The growth loop, the value of the new node, and the objects that result as the tree. */
    method GrowAndFinish(h0: RaxNode, parent0: RaxNode?, idx0: nat, i: nat, s: Key, data: Ptr, ghost p: Pos,
                         ghost t0: Node, ghost canon: bool)
      returns (ghost added: set<RaxNode>)
      requires Inserting(p, h0, parent0, idx0, t0, s, i, canon) && i <= |s|
      modifies this`numnodes, this`shape, this`tree, this`repr, PosObjs(p)
      ensures Linked() && Sets(t0, tree, s, data, canon) && numnodes == Nodes(tree)
      ensures fresh(added) && repr == PosObjs(p) + added && (Spoiled(p.st, p.t, s, i) ==> !Good(tree, true))
    {
      var h, parent, idx;
      ghost var q;
      h, parent, idx, q, added := GrowPath(h0, parent0, idx0, s, i, p, t0, canon);
      FinishInsert(h, parent, idx, s, data, q, t0, canon);
    }

    method InsertBelow(h0: RaxNode, parent0: RaxNode?, idx0: nat, i: nat, j: nat, s: Key, data: Ptr, ghost p: Pos,
                       ghost canon: bool)
      returns (ghost added: set<RaxNode>, ghost freed: seq<RaxNode>)
      requires Valid() && At(p, head, h0, parent0, idx0) && PosObjs(p) == repr
      requires Chain(tree, p.st, p.t) && Good(p.t, false) && Stopped(p.st, p.t, s, i, j) && i < |s|
      requires Good(tree, canon) && (canon ==> SnugAt(p.t, s, i))
      modifies this`head, this`numnodes, this`shape, this`tree, this`repr, repr
      ensures Linked() && Sets(old(tree), tree, s, data, canon) && numnodes == Nodes(tree)
      ensures Releases(old(repr), freed, repr)
      ensures fresh(added) && repr <= old(repr) + added && (!SnugAt(p.t, s, i) ==> !Good(tree, true))
    {
      hide Good, Chain, Stopped, Sets, Nodes, Inserting, Rep;
      var h, parent, idx;
      ghost var q, more;
      h, parent, idx, q, added, freed := BeginInsert(h0, parent0, idx0, i, j, s, p, canon);
      more := GrowAndFinish(h, parent, idx, i, s, data, q, tree, canon);
      added := added + more;
    }

    /** The three ways of placing a key, by where the walk for it stopped. */
    method Place(s: Key, data: Ptr, overwrite: bool)
      returns (prev: Option<Ptr>, ghost added: set<RaxNode>, ghost freed: seq<RaxNode>)
      requires Valid()
      modifies this`head, this`numnodes, this`shape, this`tree, this`repr, repr
      ensures Linked() && numnodes == Nodes(tree) && fresh(added) && repr <= old(repr) + added
      ensures prev == Lookup(old(tree), s) && Releases(old(repr), freed, repr)
      ensures if prev.None? || overwrite
              then Sets(old(tree), tree, s, data, old(Good(tree, true)) && Snug(old(tree), s))
              else tree == old(tree)
      ensures !Snug(old(tree), s) ==> !Good(tree, true)
    {
      var i, h, parent, idx, j, ts;
      ghost var p;
      i, h, parent, idx, j, ts, p := LowWalk(s);
      ghost var canon := Good(tree, true) && Snug(tree, s);
      WalkLookup(tree, p.st, p.t, s, i, j);
      SnugStop(tree, p.st, p.t, s, i, j);
      prev, added, freed := None, {}, [];
      if i == |s| && (!h.compr || j == 0) {
        prev := h.val;
        if h.val.None? || overwrite {
          InsertHere(h, parent, idx, s, data, p, canon);
        }
      } else if i == |s| {
        added := InsertInside(h, parent, idx, j, s, data, p, canon);
        freed := [h];
      } else {
        added, freed := InsertBelow(h, parent, idx, i, j, s, data, p, canon);
      }
    }

    /** raxGenericInsert. */
    method GenericInsert(s: Key, data: Ptr, overwrite: bool)
      returns (inserted: bool, prev: Option<Ptr>, ghost freed: seq<RaxNode>)
      requires Valid()
      modifies this, repr
      ensures Valid() && fresh(repr - old(repr))
      ensures inserted == (s !in old(Contents()))
      ensures prev == if inserted then None else Some(old(Contents())[s])
      ensures Contents() == if inserted || overwrite then old(Contents())[s := data] else old(Contents())
      ensures old(Good(tree, true)) ==> (Good(tree, true) <==> Snug(old(tree), s))
      ensures multiset(freed) == multiset(old(repr) - repr)
    {
      ghost var t0, canon := tree, Good(tree, true) && Snug(tree, s);
      hide Sets, Good, MapOf, Lookup, Nodes, Objs, Apart, Rep;
      ghost var added;
      ghost var before := repr;
      prev, added, freed := Place(s, data, overwrite);
      ReleasesExactly(before, freed, repr);
      PlacedMap(t0, tree, s, data, overwrite, prev, canon);
      inserted := prev.None?;
      if inserted {
        numele := numele + 1;
      }
    }

    /** raxFind. */
    method Find(s: Key) returns (r: Option<Ptr>)
      requires Valid()
      ensures r == if s in Contents() then Some(Contents()[s]) else None
    {
      var i, h, parent, idx, j, ts;
      ghost var p;
      i, h, parent, idx, j, ts, p := LowWalk(s);
      WalkLookup(tree, p.st, p.t, s, i, j);
      MapLookup(tree, s);
      if i != |s| || (h.compr && j != 0) || h.val.None? {
        return None;
      }
      return h.val;
    }
  }
}
