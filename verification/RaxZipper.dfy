/** A position inside a tree: the stack of ancestors recorded by the walk, each with the
    child it continues into, and the subtree below. */
module RaxZipper {
  import opened Bytes
  import opened RaxTree

  datatype Frame = Frame(node: Node, idx: nat)

  type Stack = seq<Frame>

  predicate FrameIn(f: Frame) {
    f.idx < |f.node.kids|
  }

  predicate FrameOk(f: Frame) {
    Format(f.node) && FrameIn(f)
  }

  function Child(f: Frame): Node
    requires FrameIn(f)
  {
    f.node.kids[f.idx]
  }

  function SetChild(f: Frame, h: Node): Node
    requires FrameIn(f)
  {
    f.node.(kids := f.node.kids[f.idx := h])
  }

  function Step(f: Frame): Key
    requires FrameOk(f)
  {
    Label(f.node, f.idx)
  }

  predicate StackOk(st: Stack) {
    forall i | 0 <= i < |st| :: FrameOk(st[i])
  }

  function Init(st: Stack): Stack
    requires st != []
  {
    st[..|st| - 1]
  }

  function Top(st: Stack): Frame
    requires st != []
  {
    st[|st| - 1]
  }

  /** The whole tree with h standing at the position. */
  function Plug(st: Stack, h: Node): Node
    requires StackOk(st)
  {
    if st == [] then h else Plug(Init(st), SetChild(Top(st), h))
  }

  /** The string spelled from the root to the position. */
  function Path(st: Stack): Key
    requires StackOk(st)
  {
    if st == [] then [] else Path(Init(st)) + Step(Top(st))
  }

  /** The stack really leads from the root to h. */
  predicate Chain(root: Node, st: Stack, h: Node) {
    if st == [] then root == h
    else FrameOk(Top(st)) && Child(Top(st)) == h && Chain(root, Init(st), Top(st).node)
  }

  lemma {:induction false} ChainPlug(root: Node, st: Stack, h: Node)
    requires Chain(root, st, h)
    ensures StackOk(st) && Plug(st, h) == root
  {
    if st != [] {
      ChainPlug(root, Init(st), Top(st).node);
      assert st == Init(st) + [Top(st)];
      assert SetChild(Top(st), h) == Top(st).node;
    }
  }

  lemma PushStack(st: Stack, f: Frame, h: Node)
    requires StackOk(st) && FrameOk(f)
    ensures StackOk(st + [f])
    ensures Plug(st + [f], h) == Plug(st, SetChild(f, h))
    ensures Path(st + [f]) == Path(st) + Step(f)
    ensures forall root :: Chain(root, st + [f], h) <==> Child(f) == h && Chain(root, st, f.node)
  {
    assert Init(st + [f]) == st;
  }

  // ---------------------------------------------------------------- well-formed contexts

  /** Everything but the child in the hole is well formed. */
  predicate FrameGood(f: Frame, canon: bool) {
    && FrameOk(f)
    && forall i | 0 <= i < |f.node.kids| && i != f.idx ::
         Good(f.node.kids[i], canon) && Hangs(f.node, f.node.kids[i], canon)
  }

  /** h may stand below the stack. */
  predicate Fits(st: Stack, h: Node, canon: bool) {
    st != [] ==> Hangs(Top(st).node, h, canon)
  }

  predicate CtxGood(st: Stack, canon: bool) {
    st == [] ||
    (FrameGood(Top(st), canon) && Fits(Init(st), Top(st).node, canon) && CtxGood(Init(st), canon))
  }

  lemma {:induction false} CtxGoodStackOk(st: Stack, canon: bool)
    requires CtxGood(st, canon)
    ensures StackOk(st)
  {
    if st != [] {
      CtxGoodStackOk(Init(st), canon);
      assert st == Init(st) + [Top(st)];
    }
  }

  /** Absorbing the innermost frame keeps context and subtree well formed. */
  lemma CtxStep(st: Stack, h: Node, canon: bool)
    requires st != [] && CtxGood(st, canon) && Good(h, canon) && Fits(st, h, canon)
    ensures FrameGood(Top(st), canon) && Hangs(Top(st).node, h, canon)
    ensures CtxGood(Init(st), canon) && Fits(Init(st), SetChild(Top(st), h), canon)
    ensures Good(SetChild(Top(st), h), canon)
  {
    var n := SetChild(Top(st), h);
    forall i | 0 <= i < |n.kids|
      ensures Good(n.kids[i], canon) && Hangs(n, n.kids[i], canon)
    {
      assert i != Top(st).idx ==> n.kids[i] == Top(st).node.kids[i];
    }
  }

  lemma {:induction false} PlugGood(st: Stack, h: Node, canon: bool)
    requires CtxGood(st, canon) && Good(h, canon) && Fits(st, h, canon)
    ensures StackOk(st) && Good(Plug(st, h), canon)
  {
    CtxGoodStackOk(st, canon);
    if st != [] {
      CtxStep(st, h, canon);
      PlugGood(Init(st), SetChild(Top(st), h), canon);
    }
  }

  /** Only a well-formed context and subtree make a well-formed tree. */
  lemma {:induction false} PlugGoodOnly(st: Stack, h: Node, canon: bool)
    requires StackOk(st) && Good(Plug(st, h), canon)
    ensures CtxGood(st, canon) && Good(h, canon) && Fits(st, h, canon)
  {
    if st != [] {
      var f, n := Top(st), SetChild(Top(st), h);
      PlugGoodOnly(Init(st), n, canon);
      assert n.kids[f.idx] == h && Good(h, canon) && Hangs(n, h, canon);
      forall i | 0 <= i < |f.node.kids| && i != f.idx
        ensures Good(f.node.kids[i], canon) && Hangs(f.node, f.node.kids[i], canon) {
        assert n.kids[i] == f.node.kids[i] && Hangs(n, n.kids[i], canon);
      }
    }
  }

  lemma {:induction false} ChainGood(root: Node, st: Stack, h: Node, canon: bool)
    requires Chain(root, st, h) && Good(root, canon)
    ensures CtxGood(st, canon) && Good(h, canon) && Fits(st, h, canon)
  {
    if st != [] {
      ChainGood(root, Init(st), Top(st).node, canon);
    }
  }

  // ---------------------------------------------------------------- lookup through a context

  lemma SetChildLookup(f: Frame, h: Node, k: Key)
    requires FrameGood(f, false) && Good(h, false) && Hangs(f.node, h, false)
    ensures Good(SetChild(f, h), false) && !Hollow(SetChild(f, h))
    ensures Lookup(SetChild(f, h), Step(f) + k) == Lookup(h, k)
  {
    var n := SetChild(f, h);
    forall i | 0 <= i < |n.kids|
      ensures Good(n.kids[i], false) && Hangs(n, n.kids[i], false)
    {
      assert i != f.idx ==> n.kids[i] == f.node.kids[i];
    }
    assert Label(n, f.idx) == Step(f);
    LookupChild(n, f.idx, k);
  }

  lemma SetChildElsewhere(f: Frame, h: Node, g: Node, k: Key)
    requires FrameGood(f, false) && Good(h, false) && Hangs(f.node, h, false)
    requires Good(g, false) && Hangs(f.node, g, false) && !(Step(f) <= k)
    ensures Good(SetChild(f, h), false) && Good(SetChild(f, g), false)
    ensures Lookup(SetChild(f, h), k) == Lookup(SetChild(f, g), k)
  {
    SetChildLookup(f, h, []);
    SetChildLookup(f, g, []);
  }

  lemma {:induction false} PlugInside(st: Stack, h: Node, k: Key)
    requires CtxGood(st, false) && Good(h, false) && Fits(st, h, false)
    ensures StackOk(st) && Good(Plug(st, h), false)
    ensures Lookup(Plug(st, h), Path(st) + k) == Lookup(h, k)
  {
    PlugGood(st, h, false);
    if st == [] {
      assert Path(st) + k == k;
    } else {
      CtxStep(st, h, false);
      assert Path(st) + k == Path(Init(st)) + (Step(Top(st)) + k);
      PlugInside(Init(st), SetChild(Top(st), h), Step(Top(st)) + k);
      assert Lookup(Plug(st, h), Path(st) + k) == Lookup(SetChild(Top(st), h), Step(Top(st)) + k);
      SetChildLookup(Top(st), h, k);
    }
  }

  /** Keys that do not continue into the hole do not see what stands there. */
  lemma {:induction false} PlugOutside(st: Stack, h: Node, g: Node, k: Key)
    requires CtxGood(st, false) && Good(h, false) && Fits(st, h, false)
    requires Good(g, false) && Fits(st, g, false)
    requires StackOk(st) && !(Path(st) <= k)
    ensures Good(Plug(st, h), false) && Good(Plug(st, g), false)
    ensures Lookup(Plug(st, h), k) == Lookup(Plug(st, g), k)
  {
    PlugGood(st, h, false);
    PlugGood(st, g, false);
    var f, up := Top(st), Init(st);
    CtxStep(st, h, false);
    CtxStep(st, g, false);
    if Path(up) <= k {
      var r := k[|Path(up)|..];
      assert k == Path(up) + r;
      PlugInside(up, SetChild(f, h), r);
      PlugInside(up, SetChild(f, g), r);
      SetChildElsewhere(f, h, g, r);
    } else {
      PlugOutside(up, SetChild(f, h), SetChild(f, g), k);
    }
  }

  /** Changing the subtree at a position changes exactly the keys below it. */
  lemma PlugLookup(st: Stack, h: Node, g: Node, k: Key)
    requires CtxGood(st, false) && Good(h, false) && Fits(st, h, false)
    requires Good(g, false) && Fits(st, g, false) && StackOk(st)
    ensures Good(Plug(st, h), false) && Good(Plug(st, g), false)
    ensures Lookup(Plug(st, h), k) ==
            if Path(st) <= k then Lookup(h, k[|Path(st)|..]) else Lookup(Plug(st, g), k)
  {
    if Path(st) <= k {
      assert k == Path(st) + k[|Path(st)|..];
      PlugInside(st, h, k[|Path(st)|..]);
      PlugGood(st, g, false);
    } else {
      PlugOutside(st, h, g, k);
    }
  }

  // ---------------------------------------------------------------- positions are told apart by their paths

  lemma TailOf(st: Stack)
    requires |st| > 1
    ensures Init(st)[1..] == Init(st[1..]) && Top(st[1..]) == Top(st) && Init(st)[0] == st[0]
    ensures StackOk(st) ==> StackOk(Init(st)) && StackOk(st[1..])
  {
  }

  lemma LastStep(root: Node, st: Stack, h: Node)
    requires StackOk(st) && st != []
    ensures StackOk(Init(st)) && Path(st) == Path(Init(st)) + Step(Top(st))
    ensures Chain(root, st, h) <==> Child(Top(st)) == h && Chain(root, Init(st), Top(st).node)
  {
  }

  /** The stack from the front: its first frame leaves the root. */
  lemma {:induction false} FirstFrame(root: Node, st: Stack, h: Node)
    requires Chain(root, st, h) && StackOk(st) && st != []
    ensures st[0].node == root && Chain(Child(st[0]), st[1..], h)
    ensures Path(st) == Step(st[0]) + Path(st[1..])
  {
    LastStep(root, st, h);
    if |st| == 1 {
      assert st[1..] == [] && Init(st) == [];
    } else {
      hide *;
      TailOf(st);
      FirstFrame(root, Init(st), Top(st).node);
      LastStep(Child(st[0]), st[1..], h);
    }
  }

  /** The first edge is the one the string continues into. */
  lemma FirstEdge(root: Node, st: Stack, h: Node)
    requires Chain(root, st, h) && StackOk(st) && st != []
    ensures Format(root) && Path(st) != [] && st[0] == Frame(root, Edge(root, Path(st)))
    ensures Step(st[0]) <= Path(st) && Path(st)[|Step(st[0])|..] == Path(st[1..])
    ensures Chain(Child(st[0]), st[1..], h)
  {
    FirstFrame(root, st, h);
    hide Chain, Path;
    assert Step(st[0]) <= Path(st);
  }

  /** Only one position is spelled by a string. */
  lemma {:induction false} OnePosition(root: Node, a: Stack, g: Node, b: Stack, h: Node)
    requires Chain(root, a, g) && Chain(root, b, h) && StackOk(a) && StackOk(b) && Path(a) == Path(b)
    ensures a == b && g == h
    decreases |a|
  {
    if a != [] { FirstEdge(root, a, g); }
    if b != [] { FirstEdge(root, b, h); }
    if a != [] {
      hide Chain, Path, Label, Edge, Format;
      OnePosition(Child(a[0]), a[1..], g, b[1..], h);
      assert a == [a[0]] + a[1..] && b == [b[0]] + b[1..];
    }
  }

  // ---------------------------------------------------------------- counting nodes

  function CtxNodes(st: Stack): nat
    requires StackOk(st)
  {
    if st == [] then 0
    else
      var f := Top(st);
      CtxNodes(Init(st)) + 1 + SumNodes(f.node.kids[..f.idx]) + SumNodes(f.node.kids[f.idx + 1..])
  }

  lemma SetChildNodes(f: Frame, h: Node)
    requires FrameOk(f)
    ensures Nodes(SetChild(f, h)) == 1 + SumNodes(f.node.kids[..f.idx]) + Nodes(h) + SumNodes(f.node.kids[f.idx + 1..])
  {
    var l, r := f.node.kids[..f.idx], f.node.kids[f.idx + 1..];
    assert f.node.kids[f.idx := h] == l + ([h] + r);
    SumNodesConcat(l, [h] + r);
    assert ([h] + r)[1..] == r;
  }

  lemma {:induction false} PlugNodes(st: Stack, h: Node)
    requires StackOk(st)
    ensures Nodes(Plug(st, h)) == CtxNodes(st) + Nodes(h)
  {
    if st != [] {
      SetChildNodes(Top(st), h);
      PlugNodes(Init(st), SetChild(Top(st), h));
    }
  }
}
