/** Nodes as objects edited in place, and when a graph of such objects represents a tree.
    A Shape names the objects of a subtree; distinct positions hold distinct objects. */
module RaxHeap {
  import opened Wrappers
  import opened Bytes
  import opened RaxTree
  import opened RaxZipper
  import opened RaxEdit

  class RaxNode {
    var val: Option<Ptr>
    var compr: bool
    var chars: Key
    var kids: seq<RaxNode>

    constructor (val: Option<Ptr>, compr: bool, chars: Key, kids: seq<RaxNode>)
      ensures this.val == val && this.compr == compr && this.chars == chars && this.kids == kids
    {
      this.val, this.compr, this.chars, this.kids := val, compr, chars, kids;
    }
  }

  datatype Shape = Shape(obj: RaxNode, kids: seq<Shape>)

  datatype SFrame = SFrame(shape: Shape, idx: nat)

  type SStack = seq<SFrame>

  ghost function Objs(s: Shape): set<RaxNode> {
    {s.obj} + set i, o | 0 <= i < |s.kids| && o in Objs(s.kids[i]) :: o
  }

  /** No object stands in two places of the shape. */
  ghost predicate Apart(s: Shape) {
    (forall i | 0 <= i < |s.kids| :: Apart(s.kids[i]) && s.obj !in Objs(s.kids[i])) && Disjoint(s.kids)
  }

  ghost predicate Disjoint(ks: seq<Shape>) {
    forall i, j | 0 <= i < j < |ks| :: Objs(ks[i]) !! Objs(ks[j])
  }

  /** The objects of the shape hold the tree. */
  ghost predicate Rep(s: Shape, t: Node)
    reads Objs(s)
  {
    && s.obj.val == t.val && s.obj.compr == t.compr && s.obj.chars == t.chars
    && |s.kids| == |t.kids| == |s.obj.kids|
    && forall i | 0 <= i < |s.kids| :: s.obj.kids[i] == s.kids[i].obj && Rep(s.kids[i], t.kids[i])
  }

  lemma {:induction false} ObjsAllocated(s: Shape)
    ensures forall o | o in Objs(s) :: allocated(o)
  {
    forall o | o in Objs(s) && o != s.obj ensures allocated(o) {
      var i :| 0 <= i < |s.kids| && o in Objs(s.kids[i]);
      ObjsAllocated(s.kids[i]);
    }
  }

  // ---------------------------------------------------------------- contexts of objects

  ghost function FrameObjs(g: SFrame): set<RaxNode> {
    {g.shape.obj} + set i, o | 0 <= i < |g.shape.kids| && i != g.idx && o in Objs(g.shape.kids[i]) :: o
  }

  ghost predicate FrameApart(g: SFrame) {
    var ks := g.shape.kids;
    && g.idx < |ks|
    && (forall i | 0 <= i < |ks| && i != g.idx :: Apart(ks[i]) && g.shape.obj !in Objs(ks[i]))
    && forall i, j | 0 <= i < j < |ks| && i != g.idx && j != g.idx :: Objs(ks[i]) !! Objs(ks[j])
  }

  /** The object of the frame and the siblings hold the node; the hole is linked to link. */
  ghost predicate FrameRep(g: SFrame, f: Frame, link: RaxNode)
    reads FrameObjs(g)
  {
    var s := g.shape;
    && g.idx == f.idx && s.obj.val == f.node.val && s.obj.compr == f.node.compr && s.obj.chars == f.node.chars
    && f.idx < |s.kids| == |f.node.kids| == |s.obj.kids|
    && s.obj.kids[f.idx] == link
    && forall i | 0 <= i < |s.kids| && i != f.idx :: s.obj.kids[i] == s.kids[i].obj && Rep(s.kids[i], f.node.kids[i])
  }

  ghost function CtxObjs(ss: SStack): set<RaxNode> {
    if ss == [] then {} else CtxObjs(ss[..|ss| - 1]) + FrameObjs(ss[|ss| - 1])
  }

  lemma FrameObjsAllocated(g: SFrame)
    ensures forall o | o in FrameObjs(g) :: allocated(o)
  {
    forall o | o in FrameObjs(g) && o != g.shape.obj ensures allocated(o) {
      var i :| 0 <= i < |g.shape.kids| && i != g.idx && o in Objs(g.shape.kids[i]);
      ObjsAllocated(g.shape.kids[i]);
    }
  }

  lemma {:induction false} CtxObjsAllocated(ss: SStack)
    ensures forall o | o in CtxObjs(ss) :: allocated(o)
  {
    if ss != [] {
      CtxObjsAllocated(ss[..|ss| - 1]);
      FrameObjsAllocated(ss[|ss| - 1]);
    }
  }

  ghost predicate CtxApart(ss: SStack) {
    ss == [] ||
    (FrameApart(ss[|ss| - 1]) && FrameObjs(ss[|ss| - 1]) !! CtxObjs(ss[..|ss| - 1]) && CtxApart(ss[..|ss| - 1]))
  }

  ghost predicate CtxRep(ss: SStack, st: Stack, link: RaxNode)
    reads CtxObjs(ss)
  {
    && |ss| == |st|
    && (ss != [] ==>
          && FrameRep(ss[|ss| - 1], Top(st), link)
          && CtxRep(ss[..|ss| - 1], Init(st), ss[|ss| - 1].shape.obj))
  }

  ghost function Root(ss: SStack, s: Shape): RaxNode {
    if ss == [] then s.obj else ss[0].shape.obj
  }

  /** The objects hold a tree of which h, held by s, stands at the position st. */
  ghost predicate Focus(ss: SStack, st: Stack, s: Shape, h: Node)
    reads CtxObjs(ss), Objs(s)
  {
    && CtxRep(ss, st, s.obj) && Rep(s, h)
    && CtxApart(ss) && Apart(s) && CtxObjs(ss) !! Objs(s)
  }

  lemma ShapeObjs(s: Shape, i: nat)
    requires i < |s.kids|
    ensures FrameObjs(SFrame(s, i)) + Objs(s.kids[i]) == Objs(s)
  {
  }

  lemma ApartKids(s: Shape)
    requires Apart(s)
    ensures forall i | 0 <= i < |s.kids| :: Apart(s.kids[i]) && s.obj !in Objs(s.kids[i])
    ensures forall i, j | 0 <= i < j < |s.kids| :: Objs(s.kids[i]) !! Objs(s.kids[j])
  {
  }

  lemma FrameOutside(s: Shape, i: nat, o: RaxNode)
    requires Apart(s) && i < |s.kids| && o in FrameObjs(SFrame(s, i))
    ensures o !in Objs(s.kids[i])
  {
    ApartKids(s);
    hide Objs, Apart;
    if o != s.obj {
      var j :| 0 <= j < |s.kids| && j != i && o in Objs(s.kids[j]);
      assert Objs(s.kids[if i < j then i else j]) !! Objs(s.kids[if i < j then j else i]);
    }
  }

  lemma FrameOfApart(s: Shape, i: nat)
    requires Apart(s) && i < |s.kids|
    ensures FrameApart(SFrame(s, i))
  {
    ApartKids(s);
    hide Objs, Apart;
  }

  /** Cutting one child out of a shape. */
  lemma ShapeCut(s: Shape, i: nat)
    requires Apart(s) && i < |s.kids|
    ensures FrameApart(SFrame(s, i)) && FrameObjs(SFrame(s, i)) !! Objs(s.kids[i])
    ensures FrameObjs(SFrame(s, i)) + Objs(s.kids[i]) == Objs(s)
  {
    hide *;
    ShapeObjs(s, i);
    FrameOfApart(s, i);
    forall o | o in FrameObjs(SFrame(s, i)) ensures o !in Objs(s.kids[i]) {
      FrameOutside(s, i, o);
    }
  }

  /** Going down to a child. */
  lemma FocusDown(ss: SStack, st: Stack, s: Shape, h: Node, i: nat)
    requires Focus(ss, st, s, h) && i < |h.kids|
    ensures Focus(ss + [SFrame(s, i)], st + [Frame(h, i)], s.kids[i], h.kids[i])
    ensures CtxObjs(ss + [SFrame(s, i)]) + Objs(s.kids[i]) == CtxObjs(ss) + Objs(s)
    ensures Root(ss + [SFrame(s, i)], s.kids[i]) == Root(ss, s)
  {
    var g := SFrame(s, i);
    assert (ss + [g])[..|ss|] == ss && Init(st + [Frame(h, i)]) == st;
    ShapeCut(s, i);
    assert FrameRep(g, Frame(h, i), s.kids[i].obj);
  }

  function SetKid(g: SFrame, s: Shape): Shape
    requires g.idx < |g.shape.kids|
  {
    Shape(g.shape.obj, g.shape.kids[g.idx := s])
  }

  lemma SetKidObjs(g: SFrame, s: Shape)
    requires g.idx < |g.shape.kids|
    ensures Objs(SetKid(g, s)) == FrameObjs(g) + Objs(s)
  {
    var up := SetKid(g, s);
    assert up.kids[g.idx] == s;
    forall o | o in FrameObjs(g) + Objs(s) ensures o in Objs(up) {
      if o in FrameObjs(g) && o != g.shape.obj {
        var i :| 0 <= i < |g.shape.kids| && i != g.idx && o in Objs(g.shape.kids[i]);
        assert up.kids[i] == g.shape.kids[i];
      }
    }
  }

  lemma SetKidApart(g: SFrame, s: Shape)
    requires FrameApart(g) && Apart(s) && FrameObjs(g) !! Objs(s)
    ensures Apart(SetKid(g, s))
  {
  }

  /** Going back up, whatever now stands at the position. */
  lemma FocusUp(ss: SStack, st: Stack, s: Shape, h: Node)
    requires Focus(ss, st, s, h) && ss != []
    ensures ss[|ss| - 1].idx < |ss[|ss| - 1].shape.kids|
    ensures var up := SetKid(ss[|ss| - 1], s);
            FrameIn(Top(st)) && Focus(ss[..|ss| - 1], Init(st), up, SetChild(Top(st), h)) &&
            CtxObjs(ss[..|ss| - 1]) + Objs(up) == CtxObjs(ss) + Objs(s) &&
            Root(ss[..|ss| - 1], up) == Root(ss, s)
  {
    var g := ss[|ss| - 1];
    var up := SetKid(g, s);
    SetKidObjs(g, s);
    SetKidApart(g, s);
    hide Apart;
    assert Rep(up, SetChild(Top(st), h));
  }

  /** The shape of the whole tree. */
  ghost function SPlug(ss: SStack, s: Shape): Shape
    requires CtxApart(ss)
  {
    if ss == [] then s else SPlug(ss[..|ss| - 1], SetKid(ss[|ss| - 1], s))
  }

  lemma {:induction false} FocusRoot(ss: SStack, st: Stack, s: Shape, h: Node)
    requires Focus(ss, st, s, h) && StackOk(st)
    ensures Rep(SPlug(ss, s), Plug(st, h)) && Apart(SPlug(ss, s))
    ensures Objs(SPlug(ss, s)) == CtxObjs(ss) + Objs(s)
    ensures SPlug(ss, s).obj == Root(ss, s)
  {
    if ss != [] {
      FocusUp(ss, st, s, h);
      FocusRoot(ss[..|ss| - 1], Init(st), SetKid(ss[|ss| - 1], s), SetChild(Top(st), h));
    }
  }

  /** A tree has as many objects as nodes: no node is shared. */
  lemma {:induction false} ObjsCount(s: Shape, t: Node)
    requires Rep(s, t) && Apart(s)
    ensures |Objs(s)| == Nodes(t)
    decreases t, 1
  {
    var below := set i, o | 0 <= i < |s.kids| && o in Objs(s.kids[i]) :: o;
    KidObjsCount(s.kids, t.kids);
    assert below == KidObjs(s.kids);
    assert Objs(s) == {s.obj} + below;
  }

  ghost function KidObjs(ks: seq<Shape>): set<RaxNode> {
    set i, o | 0 <= i < |ks| && o in Objs(ks[i]) :: o
  }

  lemma KidObjsCut(ks: seq<Shape>)
    requires ks != [] && Disjoint(ks)
    ensures KidObjs(ks) == Objs(ks[0]) + KidObjs(ks[1..]) && Objs(ks[0]) !! KidObjs(ks[1..])
  {
    forall o | o in KidObjs(ks[1..]) ensures o in KidObjs(ks) && o !in Objs(ks[0]) {
      var i :| 0 <= i < |ks[1..]| && o in Objs(ks[1..][i]);
      assert ks[1..][i] == ks[i + 1];
    }
    forall o | o in KidObjs(ks) ensures o in Objs(ks[0]) + KidObjs(ks[1..]) {
      var i :| 0 <= i < |ks| && o in Objs(ks[i]);
      assert i > 0 ==> ks[i] == ks[1..][i - 1];
    }
  }

  lemma {:induction false} KidObjsCount(ks: seq<Shape>, ts: seq<Node>)
    requires |ks| == |ts| && forall i | 0 <= i < |ks| :: Rep(ks[i], ts[i]) && Apart(ks[i])
    requires Disjoint(ks)
    ensures |KidObjs(ks)| == SumNodes(ts)
    decreases ts, 0
  {
    if ks != [] {
      ObjsCount(ks[0], ts[0]);
      KidObjsCount(ks[1..], ts[1..]);
      KidObjsCut(ks);
    }
  }

  /** A position in a tree of objects: ancestors, and the shape and value standing there. */
  datatype Pos = Pos(ss: SStack, st: Stack, s: Shape, t: Node)

  ghost function PosObjs(p: Pos): set<RaxNode> {
    CtxObjs(p.ss) + Objs(p.s)
  }

  /** The slot of the hole: h is linked from slot idx of parent, or from the root when the
      hole is the whole tree. */
  ghost predicate Slot(ss: SStack, st: Stack, root: RaxNode, h: RaxNode, parent: RaxNode?, idx: nat)
    reads CtxObjs(ss)
  {
    && CtxRep(ss, st, h) && CtxApart(ss)
    && if ss == [] then parent == null && root == h
       else parent == ss[|ss| - 1].shape.obj && idx == ss[|ss| - 1].idx && root == ss[0].shape.obj
  }

  /** The position is held by the objects, with h linked into its slot. */
  ghost predicate At(p: Pos, root: RaxNode, h: RaxNode, parent: RaxNode?, idx: nat)
    reads PosObjs(p)
  {
    var linked := Slot(p.ss, p.st, root, h, parent, idx);
    var held := p.s.obj == h && Rep(p.s, p.t) && Apart(p.s);
    linked && held && CtxObjs(p.ss) !! Objs(p.s)
  }

  ghost predicate Ancestors(ss: SStack, ts: seq<RaxNode>) {
    |ts| == |ss| && forall i | 0 <= i < |ss| :: ts[i] == ss[i].shape.obj
  }

  function Down(p: Pos, i: nat): Pos
    requires i < |p.s.kids| && i < |p.t.kids|
  {
    Pos(p.ss + [SFrame(p.s, i)], p.st + [Frame(p.t, i)], p.s.kids[i], p.t.kids[i])
  }

  lemma GoDown(p: Pos, root: RaxNode, h: RaxNode, parent: RaxNode?, idx: nat, i: nat)
    requires At(p, root, h, parent, idx) && i < |p.t.kids|
    ensures At(Down(p, i), root, h.kids[i], h, i) && PosObjs(Down(p, i)) == PosObjs(p)
  {
    FocusDown(p.ss, p.st, p.s, p.t, i);
  }

  lemma AncestorsDown(p: Pos, h: RaxNode, i: nat, ts: seq<RaxNode>)
    requires p.s.obj == h && i < |p.t.kids| && i < |p.s.kids| && Ancestors(p.ss, ts)
    ensures Ancestors(Down(p, i).ss, ts + [h])
  {
  }

  /** An object that holds a single-child node above the subtree s. */
  ghost predicate Holds(n: RaxNode, t: Node, s: Shape)
    reads n
  {
    n.val == t.val && n.compr == t.compr && n.chars == t.chars && n.kids == [s.obj] && |t.kids| == 1
  }

  lemma RepAbove(n: RaxNode, t: Node, s: Shape)
    requires Holds(n, t, s) && Rep(s, t.kids[0]) && Apart(s) && n !in Objs(s)
    ensures Rep(Shape(n, [s]), t) && Apart(Shape(n, [s])) && Objs(Shape(n, [s])) == {n} + Objs(s)
  {
  }

  function KidsWith(s: Shape, pos: nat, child: RaxNode): Shape
    requires pos <= |s.kids|
  {
    Shape(s.obj, InsertAt(s.kids, pos, Shape(child, [])))
  }

  lemma ObjsInsertBack(s: Shape, pos: nat, child: RaxNode)
    requires pos <= |s.kids|
    ensures Objs(KidsWith(s, pos, child)) <= Objs(s) + {child}
  {
    var ks := KidsWith(s, pos, child).kids;
    forall o | o in Objs(KidsWith(s, pos, child)) && o != s.obj ensures o in Objs(s) + {child} {
      var i :| 0 <= i < |ks| && o in Objs(ks[i]);
      if i == pos {
        assert Objs(Shape(child, [])) == {child};
      } else {
        assert ks[i] == s.kids[if i < pos then i else i - 1];
      }
    }
  }

  /** More children, more objects. */
  lemma KidsCover(s: Shape, r: Shape)
    requires s.obj == r.obj && forall i | 0 <= i < |s.kids| :: s.kids[i] in r.kids
    ensures Objs(s) <= Objs(r)
  {
    forall o | o in Objs(s) && o != s.obj ensures o in Objs(r) {
      var i :| 0 <= i < |s.kids| && o in Objs(s.kids[i]);
      var j :| 0 <= j < |r.kids| && r.kids[j] == s.kids[i];
      assert o in Objs(r.kids[j]);
    }
  }

  lemma ObjsInsertKids(s: Shape, pos: nat, child: RaxNode)
    requires pos <= |s.kids|
    ensures forall i | 0 <= i < |s.kids| :: s.kids[i] in KidsWith(s, pos, child).kids
  {
    var ks := KidsWith(s, pos, child).kids;
    forall i | 0 <= i < |s.kids| ensures s.kids[i] in ks {
      assert ks[if i < pos then i else i + 1] == s.kids[i];
    }
  }

  lemma ChildIn(s: Shape, i: nat, child: RaxNode)
    requires i < |s.kids| && s.kids[i] == Shape(child, [])
    ensures child in Objs(s)
  {
    assert child in Objs(s.kids[i]);
  }

  lemma ObjsInsert(s: Shape, pos: nat, child: RaxNode)
    requires pos <= |s.kids|
    ensures Objs(KidsWith(s, pos, child)) == Objs(s) + {child}
  {
    ObjsInsertBack(s, pos, child);
    ObjsInsertKids(s, pos, child);
    KidsCover(s, KidsWith(s, pos, child));
    ChildIn(KidsWith(s, pos, child), pos, child);
  }

  lemma DisjointInsert(ks: seq<Shape>, pos: nat, child: RaxNode)
    requires Disjoint(ks) && pos <= |ks| && forall i | 0 <= i < |ks| :: child !in Objs(ks[i])
    ensures Disjoint(InsertAt(ks, pos, Shape(child, [])))
  {
    var r := InsertAt(ks, pos, Shape(child, []));
    assert Objs(r[pos]) == {child};
    forall i, j | 0 <= i < j < |r| ensures Objs(r[i]) !! Objs(r[j]) {
      assert i != pos ==> r[i] == ks[if i < pos then i else i - 1];
      assert j != pos ==> r[j] == ks[if j < pos then j else j - 1];
    }
  }

  /** Adding a leaf among the children of an object. */
  lemma ApartInsert(s: Shape, pos: nat, child: RaxNode)
    requires Apart(s) && child !in Objs(s) && pos <= |s.kids|
    ensures Apart(KidsWith(s, pos, child))
  {
    var r := KidsWith(s, pos, child).kids;
    DisjointInsert(s.kids, pos, child);
    forall i | 0 <= i < |r| ensures Apart(r[i]) && s.obj !in Objs(r[i]) {
      assert i != pos ==> r[i] == s.kids[if i < pos then i else i - 1];
    }
  }

  lemma KidsApart(s: Shape)
    requires Apart(s)
    ensures forall i | 0 <= i < |s.kids| :: Objs(s.kids[i]) <= Objs(s) && s.obj !in Objs(s.kids[i])
  {
  }

  lemma RepInsert(s: Shape, t: Node, pos: nat, child: RaxNode, links: seq<RaxNode>, t': Node)
    requires |s.kids| == |t.kids| == |links| && pos <= |links|
    requires forall i | 0 <= i < |links| :: s.kids[i].obj == links[i] && Rep(s.kids[i], t.kids[i])
    requires Rep(Shape(child, []), EMPTY)
    requires s.obj.val == t'.val && s.obj.compr == t'.compr && s.obj.chars == t'.chars
    requires s.obj.kids == InsertAt(links, pos, child) && t'.kids == InsertAt(t.kids, pos, EMPTY)
    ensures Rep(KidsWith(s, pos, child), t')
  {
    var ks := InsertAt(s.kids, pos, Shape(child, []));
    forall i | 0 <= i < |ks| ensures s.obj.kids[i] == ks[i].obj && Rep(ks[i], t'.kids[i]) {
      var j := if i < pos then i else i - 1;
      if i != pos {
        assert ks[i] == s.kids[j] && t'.kids[i] == t.kids[j] && s.obj.kids[i] == links[j];
      }
    }
  }

  method NewLeaf() returns (n: RaxNode)
    ensures fresh(n) && Rep(Shape(n, []), EMPTY)
  {
    n := new RaxNode(None, false, [], []);
  }

  method NewAbove(val: Option<Ptr>, compr: bool, chars: Key, kid: RaxNode, ghost t: Node, ghost s: Shape)
    returns (n: RaxNode)
    requires t.val == val && t.compr == compr && t.chars == chars && |t.kids| == 1
    requires kid == s.obj && Rep(s, t.kids[0]) && Apart(s)
    ensures fresh(n) && Holds(n, t, s) && n !in Objs(s)
    ensures Rep(Shape(n, [s]), t) && Apart(Shape(n, [s])) && Objs(Shape(n, [s])) == {n} + Objs(s)
  {
    ObjsAllocated(s);
    n := new RaxNode(val, compr, chars, [kid]);
    RepAbove(n, t, s);
  }

  lemma LeafObjs(o: RaxNode)
    ensures Objs(Shape(o, [])) == {o}
  {
  }

  /** What a position says of its object, apart from the objects around and below it. */
  lemma AtParts(p: Pos, root: RaxNode, h: RaxNode, parent: RaxNode?, idx: nat)
    requires At(p, root, h, parent, idx)
    ensures Slot(p.ss, p.st, root, h, parent, idx) && p.s.obj == h && Apart(p.s) && CtxObjs(p.ss) !! Objs(p.s)
    ensures h in PosObjs(p) && h !in CtxObjs(p.ss)
    ensures forall i | 0 <= i < |p.s.kids| :: h !in Objs(p.s.kids[i])
    ensures |p.s.kids| == |p.t.kids| == |h.kids| && h.val == p.t.val && h.chars == p.t.chars && Rep(p.s, p.t)
    ensures forall i | 0 <= i < |p.s.kids| :: p.s.kids[i].obj == h.kids[i] && Rep(p.s.kids[i], p.t.kids[i])
  {
  }

  /** A leaf was added to the node at the position. */
  lemma AtInsert(p: Pos, root: RaxNode, h: RaxNode, parent: RaxNode?, idx: nat,
                 pos: nat, child: RaxNode, links: seq<RaxNode>, t: Node)
    requires Slot(p.ss, p.st, root, h, parent, idx) && p.s.obj == h && Apart(p.s) && CtxObjs(p.ss) !! Objs(p.s)
    requires child !in PosObjs(p) && Rep(Shape(child, []), EMPTY)
    requires |p.s.kids| == |p.t.kids| == |links| && pos <= |links|
    requires forall i | 0 <= i < |links| :: p.s.kids[i].obj == links[i] && Rep(p.s.kids[i], p.t.kids[i])
    requires h.val == t.val && h.compr == t.compr && h.chars == t.chars
    requires h.kids == InsertAt(links, pos, child) && t.kids == InsertAt(p.t.kids, pos, EMPTY)
    ensures var q := Pos(p.ss, p.st, KidsWith(p.s, pos, child), t);
            At(q, root, h, parent, idx) && PosObjs(q) == PosObjs(p) + {child}
  {
    ApartInsert(p.s, pos, child);
    ObjsInsert(p.s, pos, child);
    RepInsert(p.s, p.t, pos, child, links, t);
  }

  // ---------------------------------------------------------------- objects released

  /** Of the objects there were, the freed ones are gone, each freed once, and no others are. */
  ghost predicate Releases(before: set<RaxNode>, freed: seq<RaxNode>, after: set<RaxNode>) {
    && (forall i, j | 0 <= i < j < |freed| :: freed[i] != freed[j])
    && (forall o | o in freed :: o in before && o !in after)
    && forall o | o in before :: o in after || o in freed
  }

  lemma ReleasesExactly(before: set<RaxNode>, freed: seq<RaxNode>, after: set<RaxNode>)
    requires Releases(before, freed, after)
    ensures multiset(freed) == multiset(before - after)
  {
    forall o ensures multiset(freed)[o] == multiset(before - after)[o] {
      if o in freed {
        var i :| 0 <= i < |freed| && freed[i] == o;
        OnceIn(freed, i);
      }
    }
  }

  lemma OnceIn(os: seq<RaxNode>, i: nat)
    requires i < |os| && forall x, y | 0 <= x < y < |os| :: os[x] != os[y]
    ensures multiset(os)[os[i]] == 1
  {
    var l, r := os[..i], os[i + 1..];
    assert os == l + [os[i]] + r;
    assert os[i] !in l && os[i] !in r;
  }

  lemma ReleasesThen(a: set<RaxNode>, f: seq<RaxNode>, b: set<RaxNode>, g: seq<RaxNode>, c: set<RaxNode>)
    requires Releases(a, f, b) && Releases(b, g, c) && forall o | o in c && o !in b :: o !in a
    requires forall o | o in b :: o in a
    ensures Releases(a, f + g, c)
  {
    var h := f + g;
    forall i, j | 0 <= i < j < |h| ensures h[i] != h[j] {
      if i < |f| <= j { assert h[i] in f && h[j] in g; }
    }
  }

  // ---------------------------------------------------------------- the slot of a position

  ghost function ParentOf(ss: SStack): RaxNode? {
    if ss == [] then null else ss[|ss| - 1].shape.obj
  }

  ghost function IdxOf(ss: SStack): nat {
    if ss == [] then 0 else ss[|ss| - 1].idx
  }

  /** h stands at the position, wherever its parent keeps the link. */
  ghost predicate Stands(p: Pos, root: RaxNode, h: RaxNode)
    reads PosObjs(p)
  {
    At(p, root, h, ParentOf(p.ss), IdxOf(p.ss))
  }

  /** The scan for the link to a child; it stops because the link is there. */
  method FindLink(h: RaxNode, child: RaxNode) returns (i: nat)
    requires child in h.kids
    ensures i < |h.kids| && h.kids[i] == child && child !in h.kids[..i]
  {
    i := 0;
    while h.kids[i] != child
      invariant i < |h.kids| && child in h.kids[i..] && child !in h.kids[..i]
      decreases |h.kids| - i
    {
      i := i + 1;
    }
  }

  /** The link to the hole is the only one that points to c. */
  lemma LinkOnlyAt(g: SFrame, f: Frame, c: RaxNode, i: nat)
    requires FrameRep(g, f, c) && c !in FrameObjs(g)
    requires i < |g.shape.obj.kids| && g.shape.obj.kids[i] == c
    ensures i == g.idx
  {
    if i != g.idx {
      assert g.shape.kids[i].obj in Objs(g.shape.kids[i]);
    }
  }

  lemma {:induction false} RootInside(ss: SStack)
    requires ss != []
    ensures ss[0].shape.obj in CtxObjs(ss)
  {
    if |ss| > 1 {
      RootInside(ss[..|ss| - 1]);
    }
  }

  function Up(p: Pos): Pos
    requires p.ss != [] && p.st != [] && FrameIn(Top(p.st)) && p.ss[|p.ss| - 1].idx < |p.ss[|p.ss| - 1].shape.kids|
  {
    Pos(p.ss[..|p.ss| - 1], Init(p.st), SetKid(p.ss[|p.ss| - 1], p.s), SetChild(Top(p.st), p.t))
  }

  lemma StandsUp(p: Pos, root: RaxNode, h: RaxNode)
    requires Stands(p, root, h) && p.ss != []
    ensures |p.st| == |p.ss| && FrameIn(Top(p.st)) && p.ss[|p.ss| - 1].idx < |p.ss[|p.ss| - 1].shape.kids|
    ensures Stands(Up(p), root, ParentOf(p.ss)) && PosObjs(Up(p)) == PosObjs(p)
  {
    FocusUp(p.ss, p.st, p.s, p.t);
  }
}
