/** The ordered iterator of rax.c: a key buffer, a node and the stack of its ancestors, moved
    from key to key, and placed by a seek. */
module RaxIterator {
  import opened Bytes
  import opened RaxTree
  import opened RaxZipper
  import opened RaxEdit
  import opened RaxOrder
  import opened RaxRank
  import opened RaxHeap
  import opened Rax

  /** n stands at the position in the tree, below the ancestors on the stack, and key spells
      the path to it. */
  ghost predicate Standing(rt: Rax, p: Pos, n: RaxNode, stack: seq<RaxNode>, key: Key)
    reads rt, rt.repr
  {
    var whole := rt.Valid() && PosObjs(p) == rt.repr;
    whole &&
    var stands := Stands(p, rt.head, n) && Ancestors(p.ss, stack);
    var path := Chain(rt.tree, p.st, p.t) && OnPath(rt.tree, p.st, p.t, key, |key|)
                && CtxGood(p.st, false) && Fits(p.st, p.t, false);
    stands && path
  }

  /** What the object holds. */
  ghost predicate Shows(n: RaxNode, t: Node)
    reads n
  {
    n.val == t.val && n.compr == t.compr && n.chars == t.chars && |n.kids| == |t.kids|
  }

  lemma StandNode(rt: Rax, p: Pos, n: RaxNode, stack: seq<RaxNode>, key: Key)
    requires Standing(rt, p, n, stack, key)
    ensures n in rt.repr && Shows(n, p.t) && Good(p.t, false) && CtxGood(p.st, false) && key == Path(p.st)
  {
    assert key[..|key|] == key;
  }

  lemma StandPath(rt: Rax, p: Pos, n: RaxNode, stack: seq<RaxNode>, key: Key)
    requires Standing(rt, p, n, stack, key)
    ensures Good(rt.tree, false) && Chain(rt.tree, p.st, p.t)
    ensures StackOk(p.st) && CtxGood(p.st, false) && |stack| == |p.st| == |p.ss|
    ensures rt.Valid() && PosObjs(p) == rt.repr && Stands(p, rt.head, n) && Ancestors(p.ss, stack)
  {
  }

  lemma StandBelow(rt: Rax, p: Pos, n: RaxNode, stack: seq<RaxNode>, key: Key)
    requires Standing(rt, p, n, stack, key)
    ensures CtxGood(p.st, false)
    ensures stack != [] ==> !Hollow(p.t)
    ensures stack == [] ==> p.t == rt.tree && Rank(p.st) == 0
  {
  }

  lemma StandStart(rt: Rax)
    requires rt.Valid()
    ensures Standing(rt, Pos([], [], rt.shape, rt.tree), rt.head, [], []) && Rank([]) == 0
  {
  }

  lemma StandDown(rt: Rax, p: Pos, n: RaxNode, stack: seq<RaxNode>, key: Key, i: nat)
    requires Standing(rt, p, n, stack, key) && i < |p.t.kids|
    ensures i < |p.s.kids| && i < |n.kids|
    ensures Standing(rt, Down(p, i), n.kids[i], stack + [n], key + Label(p.t, i))
    ensures Rank(Down(p, i).st) == Rank(p.st) + |Own(p.t)| + KidCount(p.t, i)
  {
    StandNode(rt, p, n, stack, key);
    GoDown(p, rt.head, n, ParentOf(p.ss), IdxOf(p.ss), i);
    AncestorsDown(p, n, i, stack);
    DownGood(p.st, p.t, i);
    RankDown(p.st, p.t, i);
    PushStack(p.st, Frame(p.t, i), p.t.kids[i]);
  }

  /** Only the root has no ancestors. */
  lemma StandHead(rt: Rax, p: Pos, n: RaxNode, stack: seq<RaxNode>, key: Key)
    requires Standing(rt, p, n, stack, key)
    ensures n == rt.head <==> stack == []
  {
    if p.ss != [] {
      RootInside(p.ss);
    }
  }

  /** One node up on the path from the root. */
  lemma ChainUp(root: Node, st: Stack, t: Node)
    requires Good(root, false) && Chain(root, st, t) && StackOk(st) && CtxGood(st, false) && st != []
    ensures FrameGood(Top(st), false) && Child(Top(st)) == t && SetChild(Top(st), t) == Top(st).node
    ensures Chain(root, Init(st), Top(st).node) && Good(Top(st).node, false)
    ensures CtxGood(Init(st), false) && Fits(Init(st), Top(st).node, false) && StackOk(Init(st))
    ensures Path(st) == Path(Init(st)) + Step(Top(st))
    ensures Rank(st) == Rank(Init(st)) + |Own(Top(st).node)| + KidCount(Top(st).node, Top(st).idx)
  {
    ChainGood(root, Init(st), Top(st).node, false);
    assert st == Init(st) + [Frame(Top(st).node, Top(st).idx)];
    RankDown(Init(st), Top(st).node, Top(st).idx);
  }

  /** The key without the last step. */
  function KeyUp(key: Key, st: Stack): (k: Key)
    requires st != [] && FrameOk(Top(st)) && |Step(Top(st))| <= |key|
  {
    key[..|key| - |Step(Top(st))|]
  }

  lemma KeyUpPath(key: Key, st: Stack)
    requires st != [] && StackOk(st) && key == Path(st)
    ensures |Step(Top(st))| <= |key| && KeyUp(key, st) == Path(Init(st)) && key == KeyUp(key, st) + Step(Top(st))
  {
  }

  lemma StandBy(rt: Rax, p: Pos, n: RaxNode, stack: seq<RaxNode>, key: Key)
    requires rt.Valid() && PosObjs(p) == rt.repr && Stands(p, rt.head, n) && Ancestors(p.ss, stack)
    requires Chain(rt.tree, p.st, p.t) && Good(p.t, false) && StackOk(p.st) && key == Path(p.st)
    requires CtxGood(p.st, false) && Fits(p.st, p.t, false)
    ensures Standing(rt, p, n, stack, key)
  {
    assert key[..|key|] == key;
  }

  lemma UpIs(p: Pos, stack: seq<RaxNode>)
    requires |p.ss| == |p.st| > 0 && FrameIn(Top(p.st)) && p.ss[|p.ss| - 1].idx < |p.ss[|p.ss| - 1].shape.kids|
    requires Ancestors(p.ss, stack) && SetChild(Top(p.st), p.t) == Top(p.st).node
    ensures Up(p).st == Init(p.st) && Up(p).t == Top(p.st).node
    ensures Ancestors(Up(p).ss, stack[..|stack| - 1]) && stack[|stack| - 1] == ParentOf(p.ss)
  {
  }

  lemma StandUp(rt: Rax, p: Pos, n: RaxNode, stack: seq<RaxNode>, key: Key)
    requires Standing(rt, p, n, stack, key) && stack != []
    ensures p.st != [] && p.ss != [] && |p.st| == |p.ss| && FrameOk(Top(p.st)) && |Step(Top(p.st))| <= |key|
    ensures p.ss[|p.ss| - 1].idx < |p.ss[|p.ss| - 1].shape.kids|
    ensures Up(p).t == Top(p.st).node && Up(p).st == Init(p.st) && Good(rt.tree, false)
    ensures Standing(rt, Up(p), stack[|stack| - 1], stack[..|stack| - 1], KeyUp(key, p.st))
  {
    hide *;
    StandNode(rt, p, n, stack, key);
    StandPath(rt, p, n, stack, key);
    StandsUp(p, rt.head, n);
    ChainUp(rt.tree, p.st, p.t);
    KeyUpPath(key, p.st);
    UpIs(p, stack);
    StandBy(rt, Up(p), stack[|stack| - 1], stack[..|stack| - 1], KeyUp(key, p.st));
  }

  /** What going up does: the parent shows the length of the step that is dropped from the key. */
  lemma StandAscend(rt: Rax, p: Pos, n: RaxNode, stack: seq<RaxNode>, key: Key)
    returns (f: Frame, parent: RaxNode, k: Key)
    requires Standing(rt, p, n, stack, key) && stack != []
    ensures p.st != [] && p.ss != [] && FrameIn(Top(p.st)) && p.ss[|p.ss| - 1].idx < |p.ss[|p.ss| - 1].shape.kids|
    ensures f == Top(p.st) && FrameOk(f) && Child(f) == p.t && parent == stack[|stack| - 1] && parent in rt.repr
    ensures Standing(rt, Up(p), parent, stack[..|stack| - 1], k) && Shows(parent, f.node)
    ensures CtxGood(p.st, false) && CtxGood(Up(p).st, false) && Up(p).t == f.node && Good(f.node, false)
    ensures Rank(p.st) == Rank(Up(p).st) + |Own(f.node)| + KidCount(f.node, f.idx)
    ensures key == k + Step(f)
  {
    StandPath(rt, p, n, stack, key);
    StandUp(rt, p, n, stack, key);
    ChainUp(rt.tree, p.st, p.t);
    StandNode(rt, p, n, stack, key);
    KeyUpPath(key, p.st);
    f, parent, k := Top(p.st), stack[|stack| - 1], KeyUp(key, p.st);
    StandNode(rt, Up(p), parent, stack[..|stack| - 1], k);
  }

  /** Every frame of the stack links to the next one, and to it alone. */
  lemma {:induction false} CtxFrame(ss: SStack, st: Stack, link: RaxNode, j: nat)
    requires CtxRep(ss, st, link) && CtxApart(ss) && link !in CtxObjs(ss) && j < |ss|
    ensures var l := if j + 1 == |ss| then link else ss[j + 1].shape.obj;
            |st| == |ss| && FrameObjs(ss[j]) <= CtxObjs(ss) && FrameRep(ss[j], st[j], l) && l !in FrameObjs(ss[j])
  {
    assert ss[|ss| - 1].shape.obj in FrameObjs(ss[|ss| - 1]);
    hide FrameObjs, FrameRep, FrameApart;
    if j + 1 < |ss| {
      CtxFrame(ss[..|ss| - 1], Init(st), ss[|ss| - 1].shape.obj, j);
    }
  }

  lemma PathNil(st: Stack)
    ensures StackOk(st[..0]) && Path(st[..0]) == []
  {
    assert st[..0] == [];
  }

  lemma PathStep(st: Stack, j: nat)
    requires StackOk(st) && j < |st|
    ensures StackOk(st[..j]) && StackOk(st[..j + 1]) && Path(st[..j + 1]) == Path(st[..j]) + Step(st[j])
  {
    assert Init(st[..j + 1]) == st[..j] && Top(st[..j + 1]) == st[j];
  }

  /** parent shows the node of the frame, and only the link of the frame leads to child. */
  ghost predicate LinksTo(parent: RaxNode, child: RaxNode, f: Frame)
    reads parent
  {
    && FrameOk(f) && Shows(parent, f.node) && child == parent.kids[f.idx]
    && forall x | 0 <= x < |parent.kids| && parent.kids[x] == child :: x == f.idx
  }

  /** The j-th ancestor on the stack links to what follows it there. */
  lemma StandFrame(rt: Rax, p: Pos, n: RaxNode, stack: seq<RaxNode>, key: Key, j: nat)
    requires Standing(rt, p, n, stack, key) && j < |stack|
    ensures |p.st| == |stack| && StackOk(p.st) && stack[j] in rt.repr
    ensures LinksTo((stack + [n])[j], (stack + [n])[j + 1], p.st[j])
  {
    assert n in Objs(p.s);
    CtxFrame(p.ss, p.st, n, j);
    forall x | 0 <= x < |stack[j].kids| && stack[j].kids[x] == (stack + [n])[j + 1] ensures x == p.st[j].idx {
      LinkOnlyAt(p.ss[j], p.st[j], (stack + [n])[j + 1], x);
    }
  }

  lemma WalkStands(rt: Rax, p: Pos, n: RaxNode, parent: RaxNode?, idx: nat, stack: seq<RaxNode>)
    requires rt.Valid() && PosObjs(p) == rt.repr && At(p, rt.head, n, parent, idx) && Ancestors(p.ss, stack)
    requires Chain(rt.tree, p.st, p.t) && StackOk(p.st)
    ensures Standing(rt, p, n, stack, Path(p.st))
  {
    ChainGood(rt.tree, p.st, p.t, false);
    assert Stands(p, rt.head, n);
    StandBy(rt, p, n, stack, Path(p.st));
  }

  // ---------------------------------------------------------------- where a walk stops in the listing

  /** Entries below the node where the walk stopped that are smaller than the key walked for. */
  function UnderLow(t: Node, s: Key, i: nat, sp: nat): nat
    requires Good(t, false) && i <= |s| && (t.compr ==> sp < |t.chars|)
  {
    if i == |s| && sp == 0 then 0 else UnderHigh(t, s, i, sp)
  }

  /** Those that are not greater. */
  function UnderHigh(t: Node, s: Key, i: nat, sp: nat): nat
    requires Good(t, false) && i <= |s| && (t.compr ==> sp < |t.chars|)
  {
    |Own(t)| + KidCount(t, if i == |s| then 0
                           else if !t.compr then InsertPos(t.chars, s[i])
                           else if t.chars[sp] < s[i] then 1 else 0)
  }

  lemma UnderPlain(t: Node, s: Key, i: nat, r: Key)
    requires Good(t, false) && !t.compr && i < |s| && r == s[i..] && s[i] !in t.chars
    ensures Splits(Entries(t), UnderLow(t, s, i, 0), UnderHigh(t, s, i, 0), r)
  {
    hide Good, Splits, Entries, KidCount;
    assert r[0] == s[i];
    SplitsPlain(t, r);
  }

  lemma UnderCompressed(t: Node, s: Key, i: nat, sp: nat, r: Key)
    requires Good(t, false) && t.compr && i <= |s| && sp < |t.chars| && !(i == |s| && sp == 0)
    requires r == t.chars[..sp] + s[i..] && (i < |s| ==> t.chars[sp] != s[i])
    ensures Splits(Entries(t), UnderLow(t, s, i, sp), UnderHigh(t, s, i, sp), r)
  {
    hide Good, Splits, Entries, KidCount;
    assert i < |s| ==> r[sp] == s[i];
    SplitsCompressed(t, r, sp);
  }

  lemma UnderSplits(t: Node, s: Key, i: nat, sp: nat, r: Key)
    requires Good(t, false) && i <= |s| && (if t.compr then sp < |t.chars| else sp == 0)
    requires r == t.chars[..sp] + s[i..] && (i < |s| ==> if t.compr then t.chars[sp] != s[i] else s[i] !in t.chars)
    ensures Splits(Entries(t), UnderLow(t, s, i, sp), UnderHigh(t, s, i, sp), r)
  {
    KidCountAll(t);
    hide Good, Splits, Entries, KidCount;
    if i == |s| && sp == 0 {
      SplitsHere(t);
    } else if !t.compr {
      UnderPlain(t, s, i, r);
    } else {
      UnderCompressed(t, s, i, sp, r);
    }
  }

  /** The walk for s finds the place of s in the listing. */
  lemma WalkSplits(root: Node, st: Stack, t: Node, s: Key, i: nat, sp: nat)
    requires Good(root, false) && Chain(root, st, t) && Stopped(st, t, s, i, sp)
    ensures CtxGood(st, false) && Good(t, false)
    ensures Splits(Entries(root), Rank(st) + UnderLow(t, s, i, sp), Rank(st) + UnderHigh(t, s, i, sp), s)
  {
    hide *;
    StoppedRest(t, st, s, i, sp);
    EntriesCut(root, st, t);
    var r := t.chars[..sp] + s[i..];
    UnderSplits(t, s, i, sp, r);
    SplitsOuter(Entries(root), st, Entries(t), UnderLow(t, s, i, sp), UnderHigh(t, s, i, sp), r);
  }

  lemma WalkHere(st: Stack, t: Node, s: Key, i: nat, sp: nat)
    requires Stopped(st, t, s, i, sp) && i == |s| && sp == 0
    ensures s == Path(st)
  {
    assert s[..i] == s && t.chars[..0] == [] && Path(st) + [] == Path(st);
  }

  /** First position whose byte is not smaller than c. */
  function LowerPos(cs: Key, c: Byte): (p: nat)
    ensures p <= |cs|
    ensures forall i | 0 <= i < p :: cs[i] < c
    ensures p < |cs| ==> cs[p] >= c
  {
    if cs == [] || cs[0] >= c then 0
    else
      var r := LowerPos(cs[1..], c);
      assert forall i | 1 <= i < r + 1 :: cs[i] == cs[1..][i - 1];
      r + 1
  }

  /** The scans to the left and right of an edge stop at its neighbours. */
  lemma Neighbours(cs: Key, i: nat)
    requires Sorted(cs) && i < |cs|
    ensures InsertPos(cs, cs[i]) == i + 1 && LowerPos(cs, cs[i]) == i
  {
    var r, l := InsertPos(cs, cs[i]), LowerPos(cs, cs[i]);
    assert cs[i] <= cs[i];
    assert forall j | 0 <= j < i :: cs[j] < cs[i];
    if r > i + 1 { assert false; }
    assert l >= i;
  }

  /** The entries below the last child are the last ones below the node. */
  lemma LastKid(t: Node)
    requires Good(t, false) && t.kids != []
    ensures |Own(t)| + KidCount(t, |t.kids| - 1) + |Entries(t.kids[|t.kids| - 1])| == |Entries(t)|
  {
    KidCountAll(t);
    KidCountStep(t, |t.kids| - 1);
  }

  lemma LeafEntries(t: Node)
    requires Good(t, false)
    ensures t.chars == [] <==> t.kids == []
    ensures t.chars == [] && !Hollow(t) ==> t.val.Some? && |Entries(t)| == 1
  {
    assert t.kids == [] ==> Labels(t) == [];
  }

  /** What lies before child i + 1 is what lies before child i and the entries below it. */
  lemma NextKid(t: Node, i: nat)
    requires Good(t, false) && i < |t.kids|
    ensures KidCount(t, i) + |Entries(t.kids[i])| == KidCount(t, i + 1)
    ensures KidCount(t, 0) == 0 && |Own(t)| + KidCount(t, |t.kids|) == |Entries(t)|
  {
    KidCountAll(t);
    KidCountStep(t, i);
  }

  /** Where the scan for the next child starts: behind the byte c, or behind the only child. */
  function ScanNext(t: Node, c: Byte): (i: nat)
    requires Format(t)
    ensures i <= |t.kids|
  {
    if t.compr then 1 else InsertPos(t.chars, c)
  }

  /** Where the scan for the previous child ends: at the byte c, or at the only child. */
  function ScanPrev(t: Node, c: Byte): (i: nat)
    requires Format(t)
    ensures i <= |t.kids|
  {
    if t.compr then 0 else LowerPos(t.chars, c)
  }

  /** The scan for the previous child, from the last one. */
  method FindPrev(v: Key, c: Byte) returns (i: int)
    requires Sorted(v)
    ensures -1 <= i < |v| && i + 1 == LowerPos(v, c)
  {
    i := |v| - 1;
    while i >= 0 && v[i] >= c
      invariant -1 <= i < |v| && forall j | i < j < |v| :: v[j] >= c
    {
      i := i - 1;
    }
    assert forall j | 0 <= j < i :: v[j] < v[i];
    var p := LowerPos(v, c);
    assert i + 1 < |v| ==> v[i + 1] >= c;
    if p != i + 1 { assert false; }
  }

  // ---------------------------------------------------------------- what a seek asks for

  predicate Known(op: string) {
    op != [] && op[0] in {'>', '<', '=', '^', '$'}
  }

  /** The operator also accepts the element itself. */
  predicate WithEqual(op: string)
    requires Known(op)
  {
    op[0] == '=' || (op[0] in {'>', '<'} && |op| > 1 && op[1] == '=')
  }

  predicate Wanted(op: string, ele: Key, k: Key)
    requires Known(op)
  {
    match op[0]
    case '>' => Less(ele, k) || (WithEqual(op) && k == ele)
    case '<' => Less(k, ele) || (WithEqual(op) && k == ele)
    case '=' => k == ele
    case _ => true
  }

  /** Entry k is the wanted one that is nearest: the first one, or for '<' and '$' the last. */
  ghost predicate Best(es: Listing, op: string, ele: Key, k: nat)
    requires Known(op)
  {
    && k < |es| && Wanted(op, ele, es[k].key)
    && forall j | 0 <= j < |es| && Wanted(op, ele, es[j].key) :: if op[0] in {'<', '$'} then j <= k else k <= j
  }

  ghost predicate NoneWanted(es: Listing, op: string, ele: Key)
    requires Known(op)
  {
    forall j | 0 <= j < |es| :: !Wanted(op, ele, es[j].key)
  }

  lemma SplitsAtIndex(es: Listing, lo: nat, hi: nat, ele: Key, j: nat)
    requires Splits(es, lo, hi, ele) && j < |es|
    ensures j < lo ==> Less(es[j].key, ele) && es[j].key != ele && !Less(ele, es[j].key)
    ensures lo <= j < hi ==> es[j].key == ele && !Less(ele, ele)
    ensures hi <= j ==> Less(ele, es[j].key) && es[j].key != ele && !Less(es[j].key, ele)
  {
    LessTotal(es[j].key, ele);
    assert j < lo ==> es[..lo][j] == es[j];
    assert lo <= j < hi ==> es[lo..hi][j - lo] == es[j];
    assert hi <= j ==> es[hi..][j - hi] == es[j];
  }

  /** Seeking forwards: the wanted entries are those from m on. */
  lemma BestForward(es: Listing, lo: nat, hi: nat, op: string, ele: Key, m: nat)
    requires Splits(es, lo, hi, ele) && Known(op) && op[0] == '>' && m == if WithEqual(op) then lo else hi
    ensures if m < |es| then Best(es, op, ele, m) else NoneWanted(es, op, ele)
  {
    forall j | 0 <= j < |es| ensures Wanted(op, ele, es[j].key) <==> m <= j {
      SplitsAtIndex(es, lo, hi, ele, j);
    }
  }

  /** Seeking backwards: the wanted entries are the first b. */
  lemma BestBackward(es: Listing, lo: nat, hi: nat, op: string, ele: Key, b: nat)
    requires Splits(es, lo, hi, ele) && Known(op) && op[0] == '<' && b == if WithEqual(op) then hi else lo
    ensures b <= |es| && if b > 0 then Best(es, op, ele, b - 1) else NoneWanted(es, op, ele)
  {
    forall j | 0 <= j < |es| ensures Wanted(op, ele, es[j].key) <==> j < b {
      SplitsAtIndex(es, lo, hi, ele, j);
    }
  }

  /** Seeking one key. */
  lemma BestEqual(es: Listing, lo: nat, hi: nat, op: string, ele: Key)
    requires Splits(es, lo, hi, ele) && Known(op) && op[0] == '='
    ensures if lo < hi then Best(es, op, ele, lo) else NoneWanted(es, op, ele)
  {
    forall j | 0 <= j < |es| ensures es[j].key == ele <==> lo <= j < hi {
      SplitsAtIndex(es, lo, hi, ele, j);
    }
  }

  /** The bytes of k end strictly inside the compressed string of a node that is a key. */
  predicate EndsInsideKey(n: Node, k: Key)
    requires Good(n, false)
    decreases n
  {
    k != [] &&
    var i := Edge(n, k);
    if i < |n.kids| then EndsInsideKey(n.kids[i], k[|Label(n, i)|..])
    else n.compr && k < n.chars && n.val.Some?
  }

  lemma {:induction false} EndsInsideBelow(root: Node, st: Stack, t: Node, r: Key)
    requires Good(root, false) && Chain(root, st, t) && Good(t, false) && StackOk(st)
    ensures EndsInsideKey(root, Path(st) + r) == EndsInsideKey(t, r)
  {
    if st == [] {
      assert Path(st) + r == r;
    } else {
      var f := Top(st);
      ChainGood(root, Init(st), f.node, false);
      var k := Step(f) + r;
      assert Path(st) + r == Path(Init(st)) + k;
      EndsInsideBelow(root, Init(st), f.node, k);
      assert Label(f.node, f.idx) <= k && k[|Step(f)|..] == r;
    }
  }

  /** The walk tells whether its key ends inside a key node. */
  lemma WalkEndsInside(root: Node, st: Stack, t: Node, s: Key, i: nat, sp: nat)
    requires Good(root, false) && Chain(root, st, t) && Stopped(st, t, s, i, sp)
    ensures EndsInsideKey(root, s) == (i == |s| && t.compr && t.val.Some? && sp > 0)
  {
    StoppedRest(t, st, s, i, sp);
    ChainGood(root, st, t, false);
    var r := t.chars[..sp] + s[i..];
    EndsInsideBelow(root, st, t, r);
    if t.compr {
      assert i < |s| ==> r[sp] == s[i];
    } else {
      assert r != [] ==> r[0] == s[i];
    }
  }

  lemma GoodFormat(t: Node)
    requires Good(t, false)
    ensures if t.compr then |t.chars| >= 2 && |t.kids| == 1 else Sorted(t.chars) && |t.chars| == |t.kids|
    ensures t.kids != [] ==> !Hollow(t)
  {
  }

  lemma BothScans(cs: Key, c: Byte)
    requires c !in cs && Sorted(cs)
    ensures InsertPos(cs, c) == LowerPos(cs, c)
  {
    var p, q := InsertPos(cs, c), LowerPos(cs, c);
    assert forall x | 0 <= x < |cs| :: cs[x] != c;
    if p < q { assert false; }
    if q < p { assert false; }
  }

  /** The walk for ele stopped at n; lo entries are smaller than ele, hi are not greater. */
  ghost predicate WalkedTo(rt: Rax, p: Pos, n: RaxNode, stack: seq<RaxNode>, ele: Key, i: nat, sp: nat, lo: nat,
                           hi: nat)
    reads rt, rt.repr
  {
    var stands := StackOk(p.st) && Standing(rt, p, n, stack, Path(p.st)) && Shows(n, p.t);
    var good := Good(rt.tree, false) && Good(p.t, false) && CtxGood(p.st, false);
    stands && good && Stopped(p.st, p.t, ele, i, sp) &&
    var place := lo == Rank(p.st) + UnderLow(p.t, ele, i, sp) && hi == Rank(p.st) + UnderHigh(p.t, ele, i, sp)
                 && Splits(Entries(rt.tree), lo, hi, ele);
    var inside := EndsInsideKey(rt.tree, ele) == (i == |ele| && p.t.compr && p.t.val.Some? && sp > 0);
    place && inside
  }

  lemma WalkedBy(rt: Rax, p: Pos, n: RaxNode, stack: seq<RaxNode>, ele: Key, i: nat, sp: nat, lo: nat, hi: nat)
    requires StackOk(p.st) && Standing(rt, p, n, stack, Path(p.st)) && Shows(n, p.t)
    requires Good(rt.tree, false) && Good(p.t, false) && CtxGood(p.st, false)
    requires i <= |ele| && (p.t.compr ==> sp < |p.t.chars|) && Stopped(p.st, p.t, ele, i, sp)
    requires lo == Rank(p.st) + UnderLow(p.t, ele, i, sp) && hi == Rank(p.st) + UnderHigh(p.t, ele, i, sp)
    requires Splits(Entries(rt.tree), lo, hi, ele)
    requires EndsInsideKey(rt.tree, ele) == (i == |ele| && p.t.compr && p.t.val.Some? && sp > 0)
    ensures WalkedTo(rt, p, n, stack, ele, i, sp, lo, hi)
  {
    hide Standing, CtxGood, Good, Path, Splits, EndsInsideKey, Rank, Stopped, UnderLow, UnderHigh, Shows, StackOk;
  }

  lemma WalkStops(rt: Rax, p: Pos, n: RaxNode, parent: RaxNode?, idx: nat, stack: seq<RaxNode>, ele: Key, i: nat,
                  sp: nat)
    returns (lo: nat, hi: nat)
    requires rt.Valid() && PosObjs(p) == rt.repr && At(p, rt.head, n, parent, idx) && Ancestors(p.ss, stack)
    requires Chain(rt.tree, p.st, p.t) && Stopped(p.st, p.t, ele, i, sp)
    ensures WalkedTo(rt, p, n, stack, ele, i, sp, lo, hi)
  {
    hide *;
    StoppedRest(p.t, p.st, ele, i, sp);
    WalkStands(rt, p, n, parent, idx, stack);
    StandNode(rt, p, n, stack, Path(p.st));
    StandPath(rt, p, n, stack, Path(p.st));
    WalkSplits(rt.tree, p.st, p.t, ele, i, sp);
    WalkEndsInside(rt.tree, p.st, p.t, ele, i, sp);
    lo, hi := Rank(p.st) + UnderLow(p.t, ele, i, sp), Rank(p.st) + UnderHigh(p.t, ele, i, sp);
    WalkedBy(rt, p, n, stack, ele, i, sp, lo, hi);
  }

  lemma EmptyListing(t: Node)
    requires Good(t, false)
    ensures |MapOf(t)| == 0 <==> Entries(t) == []
    ensures |MapOf(t)| != 0 ==> !Hollow(t)
  {
    if Entries(t) != [] {
      EntryIffLookup(t, Entries(t)[0]);
      MapLookup(t, Entries(t)[0].key);
    }
    if |MapOf(t)| != 0 {
      var k :| k in MapOf(t);
      MapLookup(t, k);
      EntryIffLookup(t, Entry(k, MapOf(t)[k]));
    }
  }

  lemma FirstWanted(es: Listing, k: nat)
    ensures NoneWanted(es, ">=", []) ==> es == []
    ensures Best(es, ">=", [], k) ==> k == 0 && k < |es|
  {
    if es != [] {
      assert Wanted(">=", [], es[0].key);
    }
  }

  class RaxIterator {
    const rt: Rax
    var eof: bool
    var justSeeked: bool
    var key: Key
    var data: Ptr
    var node: RaxNode?
    var stack: seq<RaxNode>
    ghost var pos: Pos

    ghost predicate Placed()
      reads this, rt, rt.repr
    {
      node != null && Standing(rt, pos, node, stack, key)
    }

    /** On the k-th entry of the listing. */
    ghost predicate On(k: nat)
      reads this, rt, rt.repr
    {
      var there := Placed() && Rank(pos.st) == k && pos.t.val.Some?;
      there && k < |Entries(rt.tree)| && Entries(rt.tree)[k] == Entry(key, pos.t.val.value)
    }

    /** How many characters the step that starts without going up removes first. */
    function Extra(): nat
      reads this, node
      requires node != null
    {
      if node.compr then |node.chars| else 1
    }

    /** The key goes on with characters that lead away from the children of the node. */
    ghost predicate Poised()
      reads this, node, rt, rt.repr
    {
      node != null && 1 <= Extra() <= |key| && Standing(rt, pos, node, stack, key[..|key| - Extra()])
    }

    /** raxStart. */
    constructor (rt: Rax)
      requires rt.Valid()
      ensures this.rt == rt && eof && key == [] && data == 0 && stack == []
    {
      this.rt, eof, justSeeked, key, data, node, stack := rt, true, false, [], 0, null, [];
      pos := Pos([], [], rt.shape, rt.tree);
    }

    /** Standing on a key is being on its entry. */
    lemma OnKey()
      requires Placed() && pos.t.val.Some?
      ensures On(Rank(pos.st))
    {
      StandNode(rt, pos, node, stack, key);
      EntryAt(rt.tree, pos.st, pos.t);
    }

    /** Append the string of the i-th edge, push the node and enter the child. */
    method Descend(i: nat)
      requires Placed() && i < |pos.t.kids|
      modifies this`key, this`node, this`stack, this`pos
      ensures Placed() && pos.t == old(pos.t).kids[i] && |stack| == |old(stack)| + 1
      ensures Rank(pos.st) == Rank(old(pos.st)) + |Own(old(pos.t))| + KidCount(old(pos.t), i)
    {
      hide Standing, Rank, KidCount;
      StandNode(rt, pos, node, stack, key);
      StandDown(rt, pos, node, stack, key, i);
      var edge := if node.compr then node.chars else [node.chars[i]];
      assert edge == Label(pos.t, i);
      key, node, stack, pos := key + edge, node.kids[i], stack + [node], Down(pos, i);
    }

    /** Pop the parent and drop the last step from the key. */
    method Ascend() returns (prevchild: Byte, ghost f: Frame)
      requires Placed() && stack != []
      modifies this`key, this`node, this`stack, this`pos
      ensures Placed() && FrameOk(f) && pos.t == f.node && Child(f) == old(pos.t) && |stack| == |old(stack)| - 1
      ensures Rank(old(pos.st)) == Rank(pos.st) + |Own(pos.t)| + KidCount(pos.t, f.idx)
      ensures !f.node.compr ==> prevchild == f.node.chars[f.idx]
    {
      hide Standing, Rank, KidCount, CtxGood, Good;
      ghost var p, k;
      f, p, k := StandAscend(rt, pos, node, stack, key);
      prevchild := key[|key| - 1];
      var parent := stack[|stack| - 1];
      var todel := if parent.compr then |parent.chars| else 1;
      assert key[..|key| - todel] == k;
      key, node, stack, pos := key[..|key| - todel], parent, stack[..|stack| - 1], Up(pos);
    }

    /** Drop the characters that lead nowhere. */
    method Trim() returns (prevchild: Byte)
      requires Poised()
      modifies this`key
      ensures Placed() && prevchild == old(key[|key| - 1])
    {
      hide Standing;
      prevchild := key[|key| - 1];
      var todel := if node.compr then |node.chars| else 1;
      key := key[..|key| - todel];
    }

    /** raxSeekGreatest. */
    method SeekGreatest(ghost b: nat)
      requires Placed() && Rank(pos.st) + |Entries(pos.t)| == b && !Hollow(pos.t)
      modifies this`key, this`node, this`stack, this`pos
      ensures Placed() && pos.t.val.Some? && Rank(pos.st) == b - 1
    {
      hide Standing, Rank, KidCount, CtxGood, Good, Entries, Own, Hollow;
      StandNode(rt, pos, node, stack, key);
      while node.chars != []
        invariant Placed() && Good(pos.t, false) && Shows(node, pos.t) && !Hollow(pos.t)
        invariant CtxGood(pos.st, false) && Rank(pos.st) + |Entries(pos.t)| == b
        decreases pos.t
      {
        LeafEntries(pos.t);
        LastKid(pos.t);
        Descend(|node.kids| - 1);
        StandNode(rt, pos, node, stack, key);
        StandBelow(rt, pos, node, stack, key);
      }
      LeafEntries(pos.t);
    }

    /** The entry to look for, when a step towards the next entry starts: the first one below
        the node, or with noup the first one behind the last byte of the key. */
    ghost predicate NextFrom(m: nat, noup: bool)
      reads this, node, rt, rt.repr
    {
      if noup then Poised() && m == Rank(pos.st) + |Own(pos.t)| + KidCount(pos.t, ScanNext(pos.t, key[|key| - 1]))
      else Placed() && m == Rank(pos.st) + |Own(pos.t)|
    }

    /** All entries below the node come before the one to look for. */
    ghost predicate Done(m: nat)
      reads this, rt, rt.repr
    {
      Placed() && m == Rank(pos.st) + |Entries(pos.t)|
    }

    /** Enter child i and the greatest key below it. */
    method DescendGreatest(i: nat, ghost b: nat)
      requires Placed() && i < |pos.t.kids| && Good(pos.t, false)
      requires b == Rank(pos.st) + |Own(pos.t)| + KidCount(pos.t, i + 1)
      modifies this`key, this`node, this`stack, this`pos
      ensures Placed() && pos.t.val.Some? && Rank(pos.st) == b - 1
    {
      hide Standing, Rank, KidCount, CtxGood;
      NextKid(pos.t, i);
      Descend(i);
      StandBelow(rt, pos, node, stack, key);
      SeekGreatest(b);
    }

    /** To the node whose other children come next: the parent, or with noup the node itself. */
    method ToParent(noup: bool) returns (prevchild: Byte)
      requires if noup then Poised() else Placed() && stack != []
      modifies this`key, this`node, this`stack, this`pos
      ensures Placed() && Shows(node, pos.t) && Good(pos.t, false) && CtxGood(pos.st, false)
      ensures |stack| == |old(stack)| - if noup then 0 else 1
      ensures noup ==> pos == old(pos) && prevchild == old(key[|key| - 1])
      ensures !noup ==> Rank(old(pos.st)) == Rank(pos.st) + |Own(pos.t)| + KidCount(pos.t, ScanPrev(pos.t, prevchild))
      ensures !noup ==> Rank(old(pos.st)) + |Entries(old(pos.t))| ==
                        Rank(pos.st) + |Own(pos.t)| + KidCount(pos.t, ScanNext(pos.t, prevchild))
      ensures !noup ==> |node.chars| >= 1
      ensures !noup && |node.chars| == 1 && !node.compr ==>
                ScanPrev(pos.t, prevchild) == 0 && ScanNext(pos.t, prevchild) == 1
    {
      hide Standing, Rank, KidCount, CtxGood, Entries, Own, Hollow;
      if noup {
        prevchild := Trim();
      } else {
        ghost var f;
        prevchild, f := Ascend();
        StandNode(rt, pos, node, stack, key);
        NextKid(pos.t, f.idx);
        if !pos.t.compr { Neighbours(pos.t.chars, f.idx); }
      }
      StandNode(rt, pos, node, stack, key);
    }

    /** One level up: try the next child of the parent. */
    method NextTurn(noup: bool, ghost m: nat) returns (found: bool)
      requires if noup then NextFrom(m, true) else Done(m) && stack != []
      modifies this`key, this`node, this`stack, this`pos
      ensures found ==> Placed() && Rank(pos.st) == m && stack != []
      ensures !found ==> Done(m) && |stack| == |old(stack)| - if noup then 0 else 1
    {
      hide Standing, Rank, KidCount, CtxGood, Entries, Own, Hollow;
      var prevchild := ToParent(noup);
      assert m == Rank(pos.st) + |Own(pos.t)| + KidCount(pos.t, ScanNext(pos.t, prevchild));
      if !node.compr && |node.chars| > (if noup then 0 else 1) {
        var i := FindPos(node.chars, prevchild);
        if i != |node.chars| {
          Descend(i);
          return true;
        }
      }
      KidCountAll(pos.t);
      found := false;
    }

    /** The state a step leaves behind: the m-th entry with its data, or past the last one with
        everything as it was. */
    twostate predicate Stepped(m: int, last: bool)
      reads this, rt, rt.repr
    {
      if eof then last && key == old(key) && node == old(node) && stack == old(stack) && pos == old(pos) &&
          data == old(data)
      else 0 <= m && On(m) && data == Entries(rt.tree)[m].val
    }

    /** The node is a key: take its data. */
    method TakeData()
      requires Placed() && pos.t.val.Some?
      modifies this`data
      ensures On(Rank(pos.st)) && data == Entries(rt.tree)[Rank(pos.st)].val
    {
      hide Standing, Rank;
      StandNode(rt, pos, node, stack, key);
      OnKey();
      data := node.val.value;
    }

    /** Climb until a node has a child the step can go on with; false when there is none. */
    method NextUp(noup0: bool, ghost m: nat) returns (found: bool)
      requires if noup0 then NextFrom(m, true) else Done(m)
      modifies this`key, this`node, this`stack, this`pos
      ensures found ==> Placed() && Rank(pos.st) == m && stack != []
      ensures !found ==> m == |Entries(rt.tree)|
    {
      hide Standing, Rank, KidCount, CtxGood, Entries, Own, Hollow;
      var noup := noup0;
      while true
        invariant if noup then NextFrom(m, true) else Done(m)
        decreases |stack| + if noup then 1 else 0
      {
        if !noup {
          StandHead(rt, pos, node, stack, key);
          StandBelow(rt, pos, node, stack, key);
          if node == rt.head { return false; }
        }
        found := NextTurn(noup, m);
        if found { return; }
        noup := false;
      }
    }

    /** One move of raxIteratorNextStep: deeper if there are children, otherwise up and over. */
    method NextMove(noup: bool, ghost m: nat) returns (found: bool)
      requires NextFrom(m, noup)
      modifies this`key, this`node, this`stack, this`pos
      ensures found ==> Placed() && Rank(pos.st) == m && !Hollow(pos.t)
      ensures found && !noup && old(pos.t.kids) != [] ==> pos.t == old(pos.t.kids[0])
      ensures !found ==> m == |Entries(rt.tree)|
    {
      hide Standing, Rank, KidCount, CtxGood, Entries, Own, Hollow;
      if !noup {
        StandNode(rt, pos, node, stack, key);
        KidCountAll(pos.t);
      }
      if !noup && node.chars != [] {
        Descend(0);
        found := true;
      } else {
        found := NextUp(noup, m);
      }
      if found {
        StandBelow(rt, pos, node, stack, key);
      }
    }

    /** The scan of raxIteratorNextStep: go deeper to the first key, or climb to the next child
        of an ancestor and go deeper from there. */
    method Advance(noup0: bool, ghost m: nat)
      requires !eof && NextFrom(m, noup0)
      modifies this`eof, this`key, this`data, this`node, this`stack, this`pos
      ensures Stepped(m, m == |Entries(rt.tree)|)
    {
      hide Standing, Rank, KidCount, CtxGood, Good, Entries;
      var noup, origKey, origStack, origNode := noup0, key, stack, node;
      ghost var origPos := pos;
      while true
        invariant !eof && data == old(data) && NextFrom(m, noup)
        decreases if noup || pos.t.kids == [] then 1 else 0, pos.t
      {
        var found := NextMove(noup, m);
        noup := false;
        if !found {
          eof, key, stack, node := true, origKey, origStack, origNode;
          pos := origPos;
          return;
        }
        StandNode(rt, pos, node, stack, key);
        if node.val.Some? {
          TakeData();
          return;
        }
      }
    }

    /** raxIteratorNextStep, towards entry m. */
    method NextStep(noup: bool, ghost m: nat)
      requires !eof && !justSeeked ==> NextFrom(m, noup)
      modifies this`eof, this`justSeeked, this`key, this`data, this`node, this`stack, this`pos
      ensures old(eof) ==> unchanged(this)
      ensures !old(eof) && old(justSeeked) ==>
                unchanged(`eof, `key, `data, `node, `stack, `pos) && !justSeeked
      ensures !old(eof) && !old(justSeeked) ==> Stepped(m, m == |Entries(rt.tree)|) && !justSeeked
    {
      hide Standing, Rank, KidCount, CtxGood, Good;
      if eof {
        return;
      } else if justSeeked {
        justSeeked := false;
        return;
      }
      Advance(noup, m);
    }

    /** How many entries there are before the place where a step towards the previous entry
        starts: before the node, or with noup before the last byte of the key. */
    ghost predicate PrevFrom(b: nat, noup: bool)
      reads this, node, rt, rt.repr
    {
      if noup then Poised() && b == Rank(pos.st) + |Own(pos.t)| + KidCount(pos.t, ScanPrev(pos.t, key[|key| - 1]))
      else Placed() && b == Rank(pos.st)
    }

    /** One level up: the greatest key below the previous child of the parent, or the parent. */
    method PrevTurn(noup: bool, ghost b: nat) returns (found: bool)
      requires PrevFrom(b, noup) && (!noup ==> stack != [])
      modifies this`key, this`node, this`stack, this`pos
      ensures found ==> Placed() && pos.t.val.Some? && Rank(pos.st) == b - 1
      ensures !found ==> PrevFrom(b, false) && |stack| == |old(stack)| - if noup then 0 else 1
    {
      hide Standing, Rank, KidCount, CtxGood, Entries;
      var prevchild := ToParent(noup);
      assert b == Rank(pos.st) + |Own(pos.t)| + KidCount(pos.t, ScanPrev(pos.t, prevchild));
      if !node.compr && |node.chars| > (if noup then 0 else 1) {
        var i := FindPrev(node.chars, prevchild);
        if i != -1 {
          DescendGreatest(i, b);
          return true;
        }
      }
      KidCountAll(pos.t);
      found := node.val.Some?;
    }

    /** The scan of raxIteratorPrevStep. */
    method Retreat(noup0: bool, ghost b: nat)
      requires !eof && PrevFrom(b, noup0)
      modifies this`eof, this`key, this`data, this`node, this`stack, this`pos
      ensures Stepped(b - 1, b == 0)
    {
      hide Standing, Rank, KidCount, CtxGood, Good, Entries, Own, Hollow;
      var noup, origKey, origStack, origNode := noup0, key, stack, node;
      ghost var origPos := pos;
      while true
        invariant !eof && data == old(data) && PrevFrom(b, noup)
        decreases |stack| + if noup then 1 else 0
      {
        if !noup {
          StandHead(rt, pos, node, stack, key);
          StandBelow(rt, pos, node, stack, key);
          if node == rt.head {
            eof, key, stack, node := true, origKey, origStack, origNode;
            pos := origPos;
            return;
          }
        }
        var found := PrevTurn(noup, b);
        noup := false;
        if found {
          TakeData();
          return;
        }
      }
    }

    /** raxIteratorPrevStep, towards the last of b entries. */
    method PrevStep(noup: bool, ghost b: nat)
      requires !eof && !justSeeked ==> PrevFrom(b, noup)
      modifies this`eof, this`justSeeked, this`key, this`data, this`node, this`stack, this`pos
      ensures old(eof) ==> unchanged(this)
      ensures !old(eof) && old(justSeeked) ==>
                unchanged(`eof, `key, `data, `node, `stack, `pos) && !justSeeked
      ensures !old(eof) && !old(justSeeked) ==> Stepped(b - 1, b == 0) && !justSeeked
    {
      hide Standing, Rank, KidCount, CtxGood, Good;
      if eof {
        return;
      } else if justSeeked {
        justSeeked := false;
        return;
      }
      Retreat(noup, b);
    }

    /** raxNext, from entry k. */
    method Next(ghost k: nat) returns (more: bool)
      requires !eof && !justSeeked ==> On(k)
      modifies this`eof, this`justSeeked, this`key, this`data, this`node, this`stack, this`pos
      ensures more == !eof
      ensures old(eof) ==> unchanged(this)
      ensures !old(eof) && old(justSeeked) ==>
                unchanged(`eof, `key, `data, `node, `stack, `pos) && !justSeeked
      ensures !old(eof) && !old(justSeeked) ==> Stepped(k + 1, k + 1 == |Entries(rt.tree)|) && !justSeeked
    {
      hide Standing, Rank, KidCount, CtxGood, Good;
      NextStep(false, k + 1);
      more := !eof;
    }

    /** raxPrev, from entry k. */
    method Prev(ghost k: nat) returns (more: bool)
      requires !eof && !justSeeked ==> On(k)
      modifies this`eof, this`justSeeked, this`key, this`data, this`node, this`stack, this`pos
      ensures more == !eof
      ensures old(eof) ==> unchanged(this)
      ensures !old(eof) && old(justSeeked) ==>
                unchanged(`eof, `key, `data, `node, `stack, `pos) && !justSeeked
      ensures !old(eof) && !old(justSeeked) ==> Stepped(k - 1, k == 0) && !justSeeked
    {
      hide Standing, Rank, KidCount, CtxGood, Good;
      PrevStep(false, k);
      more := !eof;
    }

    /** The string of the edge from parent that links to child. */
    method EdgeTo(parent: RaxNode, child: RaxNode, ghost f: Frame) returns (edge: Key)
      requires LinksTo(parent, child, f)
      ensures edge == Step(f)
    {
      if parent.compr {
        edge := parent.chars;
      } else {
        var p := FindLink(parent, child);
        edge := [parent.chars[p]];
      }
    }

    /** The string spelled by the edges between the nodes on the stack and the node itself. */
    method Spell() returns (k: Key)
      requires node != null && StackOk(pos.st) && Standing(rt, pos, node, stack, Path(pos.st))
      ensures k == Path(pos.st)
    {
      hide Standing, Good, LinksTo, CtxGood, FrameOk, StackOk, Path, Step;
      PathNil(pos.st);
      StandPath(rt, pos, node, stack, Path(pos.st));
      var items := stack + [node];
      var j := 1;
      k := [];
      while j < |items|
        invariant 1 <= j <= |items| && StackOk(pos.st[..j - 1]) && k == Path(pos.st[..j - 1])
      {
        StandFrame(rt, pos, node, stack, Path(pos.st), j - 1);
        PathStep(pos.st, j - 1);
        var edge := EdgeTo(items[j - 1], items[j], pos.st[j - 1]);
        k := k + edge;
        j := j + 1;
      }
      assert pos.st[..|pos.st|] == pos.st;
    }

    /** On entry m with its data, or past the end. */
    ghost predicate Landed(m: int, last: bool)
      reads this, rt, rt.repr
    {
      if eof then last else 0 <= m && On(m) && data == Entries(rt.tree)[m].val
    }

    /** Where a seek goes from the node at which the walk stopped: forwards to the first entry
        that is not before the element, backwards to the last one before it. */
    ghost predicate SeekDone(lt: bool, m: nat)
      reads this, rt, rt.repr
      requires Good(rt.tree, false)
    {
      justSeeked && if lt then Landed(m - 1, m == 0) else Landed(m, m == |Entries(rt.tree)|)
    }

    /** One step in the direction of the seek; the next call of raxNext or raxPrev is ignored. */
    method StepTo(lt: bool, noup: bool, ghost m: nat)
      requires Good(rt.tree, false) && !eof && if lt then PrevFrom(m, noup) else NextFrom(m, noup)
      modifies this`eof, this`justSeeked, this`key, this`data, this`node, this`stack, this`pos
      ensures Good(rt.tree, false) && SeekDone(lt, m)
    {
      hide Standing, Rank, KidCount, CtxGood, Good;
      justSeeked := false;
      if lt {
        PrevStep(noup, m);
      } else {
        NextStep(noup, m);
      }
      justSeeked := true;
    }

    /** The walk stopped at a plain node without an edge for byte c. */
    method SeekAside(lt: bool, c: Byte, ghost m: nat)
      requires Good(rt.tree, false) && Placed() && !eof && Good(pos.t, false) && Shows(node, pos.t)
      requires !node.compr && c !in pos.t.chars && CtxGood(pos.st, false)
      requires m == Rank(pos.st) + |Own(pos.t)| + KidCount(pos.t, InsertPos(pos.t.chars, c))
      modifies this`eof, this`justSeeked, this`key, this`data, this`node, this`stack, this`pos
      ensures Good(rt.tree, false) && SeekDone(lt, m)
    {
      hide Standing, Rank, KidCount, CtxGood, Good;
      GoodFormat(pos.t);
      BothScans(pos.t.chars, c);
      ghost var k := key;
      key := key + [c];
      assert key[..|key| - 1] == k;
      StepTo(lt, true, m);
    }

    /** Let the key go on with the string of the compressed node, and step without going up. */
    method SeekPast(lt: bool, ghost m: nat)
      requires Good(rt.tree, false) && Placed() && !eof && Good(pos.t, false) && Shows(node, pos.t)
      requires node.compr && CtxGood(pos.st, false)
      requires m == Rank(pos.st) + |Own(pos.t)| + KidCount(pos.t, if lt then 0 else 1)
      modifies this`eof, this`justSeeked, this`key, this`data, this`node, this`stack, this`pos
      ensures Good(rt.tree, false) && SeekDone(lt, m)
    {
      hide Standing, Rank, KidCount, CtxGood, Good;
      GoodFormat(pos.t);
      ghost var k := key;
      key := key + node.chars;
      assert key[..|key| - |node.chars|] == k;
      StepTo(lt, true, m);
    }

    /** The walk stopped inside a compressed node that goes on with another byte. */
    method SeekAcross(lt: bool, smaller: bool, ghost m: nat)
      requires Good(rt.tree, false) && Placed() && !eof && Good(pos.t, false) && Shows(node, pos.t)
      requires node.compr && CtxGood(pos.st, false)
      requires m == Rank(pos.st) + |Own(pos.t)| + KidCount(pos.t, if smaller then 1 else 0)
      modifies this`eof, this`justSeeked, this`key, this`data, this`node, this`stack, this`pos
      ensures Good(rt.tree, false) && SeekDone(lt, m)
    {
      hide Standing, Rank, KidCount, CtxGood, Good;
      GoodFormat(pos.t);
      KidCountAll(pos.t);
      if lt != smaller {
        SeekPast(lt, m);
      } else if !lt {
        StepTo(false, false, m);
      } else {
        justSeeked := false;
        SeekGreatest(m);
        TakeData();
        justSeeked := true;
      }
    }

    /** The whole element was walked: it ends at the node, or inside its compressed string. */
    method SeekWithin(lt: bool, splitpos: nat, ghost m: nat)
      requires Good(rt.tree, false) && Placed() && !eof && Good(pos.t, false) && Shows(node, pos.t) &&
               CtxGood(pos.st, false)
      requires splitpos > 0 ==> node.compr
      requires m == Rank(pos.st) + if lt && splitpos == 0 then 0 else |Own(pos.t)|
      modifies this`eof, this`justSeeked, this`key, this`data, this`node, this`stack, this`pos
      ensures Good(rt.tree, false) && justSeeked
      ensures if lt && splitpos > 0 && old(node.compr) && old(node.val).Some?
              then !eof && m > 0 && On(m - 1) && data == old(data)
              else SeekDone(lt, m)
    {
      hide Standing, Rank, KidCount, CtxGood, Good;
      if node.compr && node.val.Some? && splitpos > 0 && lt {
        OnKey();
        justSeeked := true;
      } else {
        StepTo(lt, false, m);
      }
    }

    /** The outcome of a seek: the nearest wanted entry, or the end when no entry is wanted. The
        data is that of the entry, except that a seek backwards that stops on a key because the
        element ends inside its compressed node leaves the data as it was. */
    ghost predicate Sought(op: string, ele: Key, k: nat, data0: Ptr)
      reads this, rt, rt.repr
      requires Good(rt.tree, false) && Known(op)
    {
      var es := Entries(rt.tree);
      justSeeked &&
      if eof then NoneWanted(es, op, ele)
      else On(k) && Best(es, op, ele, k) &&
           data == if op[0] == '<' && EndsInsideKey(rt.tree, ele) then data0 else es[k].val
    }

    /** On the first entry with a wanted key, or the last one; at the end when there is none. */
    ghost predicate Lands(wanted: Key -> bool, last: bool, k: nat)
      reads this, rt, rt.repr
      requires Good(rt.tree, false)
    {
      var es := Entries(rt.tree);
      if eof then forall j | 0 <= j < |es| :: !wanted(es[j].key)
      else On(k) && k < |es| && key == es[k].key && wanted(key) &&
           forall j | 0 <= j < |es| && wanted(es[j].key) :: if last then j <= k else k <= j
    }

    /** What the seven operators look for. */
    ghost predicate AsAsked(op: string, ele: Key, k: nat)
      reads this, rt, rt.repr
      requires Good(rt.tree, false)
    {
      && (op == ">" ==> Lands(x => Less(ele, x), false, k))
      && (op == ">=" ==> Lands(x => Less(ele, x) || x == ele, false, k))
      && (op == "<" ==> Lands(x => Less(x, ele), true, k))
      && (op == "<=" ==> Lands(x => Less(x, ele) || x == ele, true, k))
      && (op == "=" ==> Lands(x => x == ele, false, k))
      && (op == "^" ==> Lands(x => true, false, k))
      && (op == "$" ==> Lands(x => true, true, k))
    }

    lemma SoughtMeans(op: string, ele: Key, k: nat, data0: Ptr)
      requires Good(rt.tree, false) && Known(op) && Sought(op, ele, k, data0)
      ensures AsAsked(op, ele, k)
    {
      hide Sought, Good, Less, Lands;
      if op == ">" {
        SoughtLands(op, ele, k, data0, x => Less(ele, x), false);
      } else if op == ">=" {
        SoughtLands(op, ele, k, data0, x => Less(ele, x) || x == ele, false);
      } else if op == "<" {
        SoughtLands(op, ele, k, data0, x => Less(x, ele), true);
      } else if op == "<=" {
        SoughtLands(op, ele, k, data0, x => Less(x, ele) || x == ele, true);
      } else if op == "=" {
        SoughtLands(op, ele, k, data0, x => x == ele, false);
      } else if op == "^" {
        SoughtLands(op, ele, k, data0, x => true, false);
      } else if op == "$" {
        SoughtLands(op, ele, k, data0, x => true, true);
      }
    }

    lemma SoughtLands(op: string, ele: Key, k: nat, data0: Ptr, wanted: Key -> bool, last: bool)
      requires Good(rt.tree, false) && Known(op) && Sought(op, ele, k, data0)
      requires (forall x :: wanted(x) <==> Wanted(op, ele, x)) && last == (op[0] in {'<', '$'})
      ensures Lands(wanted, last, k)
    {
      if !eof { OnEntry(k); }
      hide On, Good, EndsInsideKey, Less, Entries, Wanted, Known;
    }

    ghost predicate Walked(ele: Key, i: nat, splitpos: nat, lo: nat, hi: nat)
      reads this, rt, rt.repr
    {
      node != null && WalkedTo(rt, pos, node, stack, ele, i, splitpos, lo, hi)
    }

    /** raxLowWalk into the fields of the iterator. */
    method Walk(ele: Key) returns (i: nat, splitpos: nat, ghost lo: nat, ghost hi: nat)
      requires rt.Valid()
      modifies this`node, this`stack, this`pos
      ensures Walked(ele, i, splitpos, lo, hi)
    {
      hide Standing, CtxGood, Good, Chain, Path, Splits, EndsInsideKey, Rank, WalkedTo, Stopped, StackOk, MapOf;
      hide rt.Linked;
      var h, parent, idx, ts;
      ghost var p;
      i, h, parent, idx, splitpos, ts, p := rt.LowWalk(ele);
      lo, hi := WalkStops(rt, p, h, parent, idx, ts, ele, i, splitpos);
      node, stack, pos := h, ts, p;
    }

    /** The element is not there, or not wanted itself: from the node where the walk stopped, one
        step in the direction of the operator. */
    method SeekNear(op: string, ele: Key, i: nat, splitpos: nat, ghost m: nat)
      requires Good(rt.tree, false) && Placed() && !eof && Good(pos.t, false) && Shows(node, pos.t) &&
               CtxGood(pos.st, false)
      requires Known(op) && op[0] in {'<', '>'} && Stopped(pos.st, pos.t, ele, i, splitpos)
      requires WithEqual(op) && Found(pos.t, ele, i, splitpos) ==> pos.t.val.None?
      requires m == Rank(pos.st) + if (op[0] == '<') == WithEqual(op) then UnderHigh(pos.t, ele, i, splitpos)
                                   else UnderLow(pos.t, ele, i, splitpos)
      modifies this`eof, this`justSeeked, this`key, this`data, this`node, this`stack, this`pos
      ensures Good(rt.tree, false) && justSeeked
      ensures if op[0] == '<' && i == |ele| && old(pos.t.compr) && old(pos.t.val.Some?) && splitpos > 0
              then !eof && m > 0 && On(m - 1) && data == old(data)
              else SeekDone(op[0] == '<', m)
    {
      hide Standing, Rank, KidCount, CtxGood, Good, Path;
      KidCountAll(pos.t);
      if i != |ele| && !node.compr {
        SeekAside(op[0] == '<', ele[i], m);
      } else if i != |ele| {
        SeekAcross(op[0] == '<', node.chars[splitpos] < ele[i], m);
      } else {
        SeekWithin(op[0] == '<', splitpos, m);
      }
    }

    /** The node of the element is a key and wanted. */
    method SeekHere(ele: Key)
      requires node != null && StackOk(pos.st) && Standing(rt, pos, node, stack, Path(pos.st)) && CtxGood(pos.st, false)
      requires key == [] && ele == Path(pos.st) && pos.t.val.Some?
      modifies this`key, this`data
      ensures On(Rank(pos.st)) && data == Entries(rt.tree)[Rank(pos.st)].val
    {
      hide Standing, Rank, CtxGood, Good, Path;
      key := key + ele;
      assert key == ele;
      TakeData();
    }

    lemma SoughtHere(op: string, ele: Key, lo: nat, hi: nat, data0: Ptr)
      requires Good(rt.tree, false) && Known(op) && WithEqual(op) && !eof && justSeeked
      requires Splits(Entries(rt.tree), lo, hi, ele) && hi == lo + 1 && !EndsInsideKey(rt.tree, ele)
      requires On(lo) && data == Entries(rt.tree)[lo].val
      ensures Sought(op, ele, lo, data0)
    {
      hide On, Good, Splits, EndsInsideKey;
      var es := Entries(rt.tree);
      if op[0] == '=' {
        BestEqual(es, lo, hi, op, ele);
      } else if op[0] == '<' {
        BestBackward(es, lo, hi, op, ele, hi);
      } else {
        OnInside(lo);
        BestForward(es, lo, hi, op, ele, lo);
      }
    }

    lemma OnInside(k: nat)
      requires Good(rt.tree, false) && On(k)
      ensures k < |Entries(rt.tree)|
    {
    }

    lemma SoughtNear(op: string, ele: Key, lo: nat, hi: nat, m: nat, data0: Ptr)
      requires Good(rt.tree, false) && Known(op) && op[0] in {'<', '>'} && justSeeked
      requires Splits(Entries(rt.tree), lo, hi, ele) && m == if (op[0] == '<') == WithEqual(op) then hi else lo
      requires if op[0] == '<' && EndsInsideKey(rt.tree, ele) then !eof && m > 0 && On(m - 1) && data == data0
               else SeekDone(op[0] == '<', m)
      ensures Sought(op, ele, if op[0] == '<' && m > 0 then m - 1 else m, data0)
    {
      hide On, Good, Splits, EndsInsideKey;
      var es := Entries(rt.tree);
      if op[0] == '<' {
        BestBackward(es, lo, hi, op, ele, m);
      } else {
        if !eof { OnInside(m); }
        BestForward(es, lo, hi, op, ele, m);
      }
    }

    /** The element itself is found and wanted. */
    method SeekEqual(op: string, ele: Key, i: nat, splitpos: nat, ghost lo: nat, ghost hi: nat)
      requires Walked(ele, i, splitpos, lo, hi) && Known(op) && WithEqual(op) && !eof && justSeeked && key == []
      requires i == |ele| && (!node.compr || splitpos == 0) && node.val.Some?
      modifies this`key, this`data
      ensures Good(rt.tree, false) && Sought(op, ele, lo, old(data))
    {
      hide Standing, Rank, KidCount, CtxGood, Good, Path, EndsInsideKey, Sought, Splits, Stopped;
      StoppedRest(pos.t, pos.st, ele, i, splitpos);
      WalkHere(pos.st, pos.t, ele, i, splitpos);
      KidCountAll(pos.t);
      ghost var before := data;
      SeekHere(ele);
      SoughtHere(op, ele, lo, hi, before);
    }

    /** The operator looks for a neighbour of the element. */
    method SeekAround(op: string, ele: Key, i: nat, splitpos: nat, ghost lo: nat, ghost hi: nat) returns (ghost k: nat)
      requires Walked(ele, i, splitpos, lo, hi) && Known(op) && op[0] in {'>', '<'} && !eof
      requires WithEqual(op) && Found(pos.t, ele, i, splitpos) ==> pos.t.val.None?
      modifies this`eof, this`justSeeked, this`key, this`data, this`node, this`stack, this`pos
      ensures Good(rt.tree, false) && Sought(op, ele, k, old(data))
    {
      hide Standing, Rank, KidCount, CtxGood, Good, Path, EndsInsideKey, Sought, Splits, Stopped;
      ghost var m := if (op[0] == '<') == WithEqual(op) then hi else lo;
      key := Spell();
      SeekNear(op, ele, i, splitpos, m);
      SoughtNear(op, ele, lo, hi, m, old(data));
      k := if op[0] == '<' && m > 0 then m - 1 else m;
    }

    lemma SoughtNowhere(op: string, ele: Key, k: nat, data0: Ptr)
      requires Good(rt.tree, false) && Known(op) && Entries(rt.tree) == [] && eof && justSeeked
      ensures Sought(op, ele, k, data0)
    {
    }

    /** Seeking '>', '>=', '<', '<=' or '=' in a tree that is not empty. */
    method SeekElement(op: string, ele: Key) returns (ghost k: nat)
      requires rt.Valid() && Known(op) && op[0] in {'>', '<', '='} && !eof && justSeeked && key == []
      modifies this`eof, this`justSeeked, this`key, this`data, this`node, this`stack, this`pos
      ensures Good(rt.tree, false) && justSeeked && Sought(op, ele, k, old(data))
    {
      hide Standing, Rank, KidCount, CtxGood, Good, Path, EndsInsideKey, Splits, Stopped, Best;
      ghost var lo, hi;
      var i, splitpos;
      i, splitpos, lo, hi := Walk(ele);
      StoppedRest(pos.t, pos.st, ele, i, splitpos);
      if WithEqual(op) && i == |ele| && (!node.compr || splitpos == 0) && node.val.Some? {
        SeekEqual(op, ele, i, splitpos, lo, hi);
        k := lo;
      } else if op[0] != '=' {
        k := SeekAround(op, ele, i, splitpos, lo, hi);
      } else {
        KidCountAll(pos.t);
        BestEqual(Entries(rt.tree), lo, hi, op, ele);
        eof, k := true, 0;
      }
    }

    method AtHead()
      requires rt.Valid() && key == [] && stack == []
      modifies this`node, this`pos
      ensures Placed() && pos.t == rt.tree && Rank(pos.st) == 0
    {
      StandStart(rt);
      hide Standing, Rank, KidCount, CtxGood, Good, Entries, rt.Valid;
      node := rt.head;
      pos := Pos([], [], rt.shape, rt.tree);
    }

    /** Seeking '$': always down the last child. */
    method SeekLast() returns (ghost k: nat)
      requires rt.Valid() && Entries(rt.tree) != [] && !Hollow(rt.tree) && !eof && justSeeked && key == [] &&
               stack == []
      modifies this`key, this`data, this`node, this`stack, this`pos
      ensures Good(rt.tree, false) && On(k) && k == |Entries(rt.tree)| - 1 && data == Entries(rt.tree)[k].val
    {
      hide Standing, Rank, KidCount, CtxGood, Good, Entries, Hollow;
      ghost var n := |Entries(rt.tree)|;
      AtHead();
      hide rt.Valid;
      SeekGreatest(n);
      k := n - 1;
      TakeData();
    }

    lemma SoughtFirst(op: string, ele: Key, k: nat, data0: Ptr)
      requires Good(rt.tree, false) && Known(op) && op[0] == '^' && Sought(">=", [], k, data0)
      ensures Sought(op, ele, k, data0)
    {
      hide On, EndsInsideKey;
      FirstWanted(Entries(rt.tree), k);
    }

    lemma SoughtLast(op: string, ele: Key, k: nat, data0: Ptr)
      requires Good(rt.tree, false) && Known(op) && op[0] == '$' && !eof && justSeeked
      requires On(k) && k == |Entries(rt.tree)| - 1 && data == Entries(rt.tree)[k].val
      ensures Sought(op, ele, k, data0)
    {
      hide On, EndsInsideKey;
    }

    /** raxSeek. */
    method Seek(op: string, ele: Key) returns (ok: bool, ghost k: nat)
      requires rt.Valid()
      modifies this`eof, this`justSeeked, this`key, this`data, this`node, this`stack, this`pos
      ensures Good(rt.tree, false) && ok == Known(op) && justSeeked
      ensures !ok ==> !eof && key == [] && node == null && stack == []
      ensures ok ==> Sought(op, ele, k, old(data))
      ensures ok <==> op != [] && op[0] in {'>', '<', '=', '^', '$'}
      ensures ok ==> AsAsked(op, ele, k)
      decreases if op != [] && op[0] == '^' then 1 else 0
    {
      hide Standing, Rank, KidCount, CtxGood, Good, EndsInsideKey, Best, On, Entries, MapOf, Hollow, rt.Linked, Sought;
      hide AsAsked;
      ghost var data0 := data;
      stack, justSeeked, eof, key, node := [], true, false, [], null;
      k := 0;
      if op == [] || op[0] !in {'>', '<', '=', '^', '$'} {
        return false, k;
      }
      ok := true;
      EmptyListing(rt.tree);
      if rt.numele == 0 {
        eof := true;
        SoughtNowhere(op, ele, k, data0);
      } else if op[0] == '^' {
        ok, k := Seek(">=", []);
        SoughtFirst(op, ele, k, data0);
      } else if op[0] == '$' {
        k := SeekLast();
        SoughtLast(op, ele, k, data0);
      } else {
        k := SeekElement(op, ele);
      }
      SoughtMeans(op, ele, k, data0);
    }

    /** What a traversal has collected: k entries from the front, the iterator on the next one. */
    ghost predicate Ascended(es: Listing, more: bool, k: nat)
      reads this, rt, rt.repr
    {
      Good(rt.tree, false) && more == !eof && (more ==> !justSeeked) && k <= |Entries(rt.tree)| &&
          es == Entries(rt.tree)[..k] &&
      if more then On(k) && data == Entries(rt.tree)[k].val else k == |Entries(rt.tree)|
    }

    lemma SoughtStart(op: string, k: nat, data0: Ptr)
      requires Good(rt.tree, false) && Known(op) && op[0] in {'^', '$'} && Sought(op, [], k, data0)
      ensures if eof then Entries(rt.tree) == []
              else On(k) && k < |Entries(rt.tree)| && data == Entries(rt.tree)[k].val &&
                   k == if op[0] == '^' then 0 else |Entries(rt.tree)| - 1
    {
      hide On, EndsInsideKey;
      var es := Entries(rt.tree);
      if es != [] {
        assert Wanted(op, [], es[0].key) && Wanted(op, [], es[|es| - 1].key);
      }
    }

    /** Seek '^' and call raxNext once. */
    method First() returns (more: bool)
      requires rt.Valid()
      modifies this`eof, this`justSeeked, this`key, this`data, this`node, this`stack, this`pos
      ensures Good(rt.tree, false) && Ascended([], more, 0)
    {
      hide Standing, Good, Sought, Entries, Rank, CtxGood, rt.Valid;
      var ok;
      ghost var k: nat;
      ghost var data0 := data;
      ok, k := Seek("^", []);
      SoughtStart("^", k, data0);
      more := Next(k);
    }

    /** Seek '$' and call raxPrev once. */
    method Last() returns (more: bool)
      requires rt.Valid()
      modifies this`eof, this`justSeeked, this`key, this`data, this`node, this`stack, this`pos
      ensures Good(rt.tree, false) && Descended([], more)
    {
      hide Standing, Good, Sought, Entries, Rank, CtxGood, rt.Valid;
      var ok;
      ghost var k: nat;
      ghost var data0 := data;
      ok, k := Seek("$", []);
      SoughtStart("$", k, data0);
      more := Prev(k);
    }

    /** Every key in ascending order: seek the first one, then step. */
    method CollectForwards() returns (es: Listing)
      requires rt.Valid()
      modifies this`eof, this`justSeeked, this`key, this`data, this`node, this`stack, this`pos
      ensures Good(rt.tree, false) && es == Entries(rt.tree)
    {
      hide Standing, Good, Sought, Entries, Rank, CtxGood, rt.Valid;
      es := [];
      var more := First();
      ghost var k := 0;
      while more
        invariant Ascended(es, more, k)
        decreases |Entries(rt.tree)| - k
      {
        OnEntry(k);
        es := es + [Entry(key, data)];
        more := Next(k);
        k := k + 1;
      }
    }

    lemma OnEntry(k: nat)
      requires Good(rt.tree, false) && On(k)
      ensures k < |Entries(rt.tree)| && Entries(rt.tree)[k].key == key
    {
    }

    /** The same from the back. */
    ghost predicate Descended(es: Listing, more: bool)
      reads this, rt, rt.repr
    {
      Good(rt.tree, false) &&
      var all := Entries(rt.tree);
      more == !eof && (more ==> !justSeeked) && |es| <= |all| &&
          (forall i | 0 <= i < |es| :: es[i] == all[|all| - 1 - i]) &&
      if more then |es| < |all| && On(|all| - 1 - |es|) && data == all[|all| - 1 - |es|].val else |es| == |all|
    }

    /** Every key in descending order. */
    method CollectBackwards() returns (es: Listing)
      requires rt.Valid()
      modifies this`eof, this`justSeeked, this`key, this`data, this`node, this`stack, this`pos
      ensures Good(rt.tree, false) && |es| == |Entries(rt.tree)|
      ensures forall i | 0 <= i < |es| :: es[i] == Entries(rt.tree)[|es| - 1 - i]
    {
      hide Standing, Good, Sought, Entries, Rank, CtxGood, On, rt.Valid;
      es := [];
      var more := Last();
      while more
        invariant Descended(es, more)
        decreases |Entries(rt.tree)| - |es|
      {
        ghost var k := |Entries(rt.tree)| - 1 - |es|;
        OnEntry(k);
        es := es + [Entry(key, data)];
        more := Prev(k);
      }
    }
  }
}
