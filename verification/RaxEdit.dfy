/** What the edits of an insertion do to the tree as a value. While a string is being
    inserted the tree has a hole: Pending says that the context and the node in the hole
    still hold exactly the keys of the tree the insertion started from. */
module RaxEdit {
  import opened Wrappers
  import opened Bytes
  import opened RaxTree
  import opened RaxZipper

  /** First position whose byte is greater than c. */
  function InsertPos(cs: Key, c: Byte): (p: nat)
    ensures p <= |cs|
    ensures forall i | 0 <= i < p :: cs[i] <= c
    ensures p < |cs| ==> cs[p] > c
  {
    if cs == [] || cs[0] > c then 0
    else
      var r := InsertPos(cs[1..], c);
      assert forall i | 1 <= i < r + 1 :: cs[i] == cs[1..][i - 1];
      r + 1
  }

  function InsertAt<T>(s: seq<T>, p: nat, x: T): (r: seq<T>)
    requires p <= |s|
    ensures |r| == |s| + 1 && r[p] == x
    ensures forall i {:trigger r[i]} | 0 <= i < |r| && i != p :: r[i] == s[if i < p then i else i - 1]
  {
    seq(|s| + 1, i requires 0 <= i <= |s| => if i < p then s[i] else if i == p then x else s[i - 1])
  }

  function RemoveAt<T>(s: seq<T>, p: nat): (r: seq<T>)
    requires p < |s|
    ensures |r| == |s| - 1
    ensures forall i {:trigger r[i]} | 0 <= i < |r| :: r[i] == s[if i < p then i else i + 1]
  {
    seq(|s| - 1, i requires 0 <= i < |s| - 1 => s[if i < p then i else i + 1])
  }

  /** A plain node with one more empty child behind byte c. */
  function AddChild(n: Node, c: Byte): Frame
    requires |n.chars| == |n.kids|
  {
    var p := InsertPos(n.chars, c);
    Frame(Node(n.val, n.compr, InsertAt(n.chars, p, c), InsertAt(n.kids, p, EMPTY)), p)
  }

  /** A leaf turned into a compressed node with an empty child. */
  function CompressNode(n: Node, l: Key): Frame {
    Frame(Node(n.val, true, l, [EMPTY]), 0)
  }

  const KEY_LEAF: Node := Node(Some(0), false, [], [])

  /** Node f, with g in its hole, stands for the same keys as h. */
  ghost predicate Recut(h: Node, f: Frame, g: Node) {
    var good := Good(h, false) && Good(g, false) && FrameGood(f, false) && Good(SetChild(f, KEY_LEAF), false);
    good &&
    var inside := forall k :: Lookup(h, Step(f) + k) == Lookup(g, k);
    var outside := forall r | !(Step(f) <= r) :: Lookup(SetChild(f, KEY_LEAF), r) == Lookup(h, r);
    inside && outside
  }

  lemma InsertSorted(cs: Key, c: Byte)
    requires Sorted(cs) && c !in cs
    ensures Sorted(InsertAt(cs, InsertPos(cs, c), c))
  {
    var p := InsertPos(cs, c);
    var r := InsertAt(cs, p, c);
    hide InsertPos, InsertAt;
    forall i, j | 0 <= i < j < |r| ensures r[i] < r[j] {
      InsertedAt(cs, p, c, i);
      InsertedAt(cs, p, c, j);
    }
  }

  lemma InsertedAt(cs: Key, p: nat, c: Byte, i: nat)
    requires p <= |cs| && i <= |cs|
    ensures InsertAt(cs, p, c)[i] == if i < p then cs[i] else if i == p then c else cs[i - 1]
  {
  }

  lemma AddChildGood(h: Node, c: Byte, canon: bool)
    requires !h.compr && Format(h) && c !in h.chars
    requires forall i | 0 <= i < |h.kids| :: Good(h.kids[i], canon) && !Hollow(h.kids[i])
    ensures FrameGood(AddChild(h, c), canon) && Step(AddChild(h, c)) == [c]
  {
    var f := AddChild(h, c);
    InsertSorted(h.chars, c);
    forall i | 0 <= i < |f.node.kids| && i != f.idx
      ensures Good(f.node.kids[i], canon) && Hangs(f.node, f.node.kids[i], canon)
    {
      assert f.node.kids[i] == h.kids[if i < f.idx then i else i - 1];
    }
  }

  lemma InsertAtTail(cs: Key, p: nat, c: Byte)
    requires p <= |cs|
    ensures InsertAt(cs, p, c)[0] == if p == 0 then c else cs[0]
    ensures InsertAt(cs, p, c)[1..] == if p == 0 then cs else InsertAt(cs[1..], p - 1, c)
  {
    var r := InsertAt(cs, p, c);
    if p > 0 {
      forall i | 0 <= i < |cs| ensures r[1..][i] == InsertAt(cs[1..], p - 1, c)[i] {
        assert r[1..][i] == r[i + 1];
      }
    }
  }

  /** Inserting a byte shifts the edges behind it. */
  lemma {:induction false} IndexShift(cs: Key, p: nat, c: Byte, b: Byte)
    requires p <= |cs| && b != c
    ensures IndexOf(InsertAt(cs, p, c), b) == IndexOf(cs, b) + if IndexOf(cs, b) < p then 0 else 1
  {
    var r := InsertAt(cs, p, c);
    InsertAtTail(cs, p, c);
    assert r[0] != b ==> IndexOf(r, b) == 1 + IndexOf(r[1..], b);
    if p > 0 {
      IndexShift(cs[1..], p - 1, c, b);
    }
  }

  /** The other edges of the node lead where they led. */
  lemma AddChildElsewhere(h: Node, c: Byte, r: Key)
    requires Good(h, false) && !h.compr && c !in h.chars && !([c] <= r)
    requires Good(SetChild(AddChild(h, c), KEY_LEAF), false)
    ensures Lookup(SetChild(AddChild(h, c), KEY_LEAF), r) == Lookup(h, r)
  {
    var f := AddChild(h, c);
    var n := SetChild(f, KEY_LEAF);
    if r != [] {
      IndexShift(h.chars, f.idx, c, r[0]);
      var i, j := Edge(h, r), Edge(n, r);
      assert j == if i < f.idx then i else i + 1;
      assert i < |h.kids| ==> n.kids[j] == h.kids[i];
    }
  }

  lemma NoEdge(h: Node, c: Byte)
    requires Good(h, false) && !h.compr && c !in h.chars
    ensures forall k :: Lookup(h, [c] + k) == Lookup(EMPTY, k)
  {
    forall k ensures Lookup(h, [c] + k) == Lookup(EMPTY, k) {
      assert ([c] + k)[0] == c;
    }
  }

  lemma OtherEdges(h: Node, c: Byte, n: Node)
    requires Good(h, false) && !h.compr && c !in h.chars
    requires n == SetChild(AddChild(h, c), KEY_LEAF) && Good(n, false)
    ensures forall r: Key | !([c] <= r) :: Lookup(n, r) == Lookup(h, r)
  {
    forall r: Key | !([c] <= r) ensures Lookup(n, r) == Lookup(h, r) {
      AddChildElsewhere(h, c, r);
    }
  }

  lemma AddChildBy(h: Node, f: Frame, c: Byte)
    requires Good(h, false) && !h.compr && c !in h.chars && f == AddChild(h, c)
    requires FrameGood(f, false) && Step(f) == [c] && Good(SetChild(f, KEY_LEAF), false)
    ensures Recut(h, f, EMPTY)
  {
    OtherEdges(h, c, SetChild(f, KEY_LEAF));
    NoEdge(h, c);
  }

  lemma WithKey(f: Frame)
    requires FrameGood(f, false)
    ensures Good(SetChild(f, KEY_LEAF), false)
  {
    SetChildLookup(f, KEY_LEAF, []);
  }

  /** A new edge with nothing behind it. */
  lemma AddChildRecut(h: Node, c: Byte)
    requires Good(h, false) && !h.compr && c !in h.chars
    ensures Recut(h, AddChild(h, c), EMPTY)
  {
    AddChildGood(h, c, false);
    WithKey(AddChild(h, c));
    AddChildBy(h, AddChild(h, c), c);
  }

  lemma CompressRecut(h: Node, l: Key)
    requires h.chars == [] && h.kids == [] && !h.compr && 2 <= |l| <= NODE_MAX_SIZE
    ensures Recut(h, CompressNode(h, l), EMPTY) && Step(CompressNode(h, l)) == l
  {
    SetChildLookup(CompressNode(h, l), KEY_LEAF, []);
  }

  // ---------------------------------------------------------------- splitting a compressed node

  /** A node with the single child g behind the string l, compressed unless l is one byte. */
  function Link(v: Option<Ptr>, l: Key, g: Node): Node {
    Node(v, |l| > 1, l, [g])
  }

  lemma LinkLookup(v: Option<Ptr>, l: Key, g: Node, k: Key)
    requires 1 <= |l| <= NODE_MAX_SIZE && Good(g, false) && !Hollow(g)
    ensures Good(Link(v, l, g), false)
    ensures Lookup(Link(v, l, g), k) == if k == [] then v else if l <= k then Lookup(g, k[|l|..]) else None
  {
    var n := Link(v, l, g);
    if k != [] && l <= k {
      assert Edge(n, k) == 0 && Label(n, 0) == l;
    }
  }

  lemma SetLinkChild(v: Option<Ptr>, l: Key, g: Node, g': Node)
    ensures SetChild(Frame(Link(v, l, g), 0), g') == Link(v, l, g')
  {
    assert [g][0 := g'] == [g'];
  }

  /** A frame with a single child extends a well-formed context. */
  lemma PushLink(st: Stack, f: Frame, canon: bool)
    requires CtxGood(st, canon) && Fits(st, f.node, canon) && FrameOk(f) && |f.node.kids| == 1
    ensures CtxGood(st + [f], canon)
  {
    assert Init(st + [f]) == st && Top(st + [f]) == f;
  }

  /** The node that continues with the bytes of h after position j, before the new key branches off. */
  function SplitRest(h: Node, j: nat): Node
    requires h.compr && |h.kids| == 1 && j < |h.chars|
  {
    if j + 1 < |h.chars| then Link(None, h.chars[j + 1..], h.kids[0]) else h.kids[0]
  }

  function SplitNode(h: Node, j: nat): Node
    requires h.compr && |h.kids| == 1 && j < |h.chars|
  {
    Node(if j == 0 then h.val else None, false, [h.chars[j]], [SplitRest(h, j)])
  }

  lemma SplitGood(h: Node, j: nat, canon: bool)
    requires h.compr && Good(h, canon) && j < |h.chars|
    ensures Good(SplitRest(h, j), canon) && !Hollow(SplitRest(h, j))
    ensures j > 0 ==> Good(Link(None, h.chars[j..], h.kids[0]), canon)
  {
    assert Hangs(h, h.kids[0], canon);
  }

  lemma AsLink(h: Node)
    requires h.compr && Good(h, false)
    ensures |h.kids| == 1 && Link(h.val, h.chars, h.kids[0]) == h && 1 <= |h.chars| <= NODE_MAX_SIZE
    ensures Good(h.kids[0], false) && !Hollow(h.kids[0])
  {
    assert Hangs(h, h.kids[0], false);
  }

  /** What follows the first j bytes of l. */
  lemma RestOf(l: Key, j: nat, k: Key)
    requires j <= |l|
    ensures l <= l[..j] + k <==> l[j..] <= k
    ensures l[j..] <= k ==> (l[..j] + k)[|l|..] == k[|l| - j..]
  {
    assert l == l[..j] + l[j..];
    PrefixCancel(l[..j], l[j..], k);
  }

  /** The rest of the key after the front part of h. */
  lemma FrontLookup(h: Node, j: nat, k: Key)
    requires h.compr && Good(h, false) && j < |h.chars|
    ensures Lookup(h, h.chars[..j] + k) ==
            if j == 0 && k == [] then h.val
            else if h.chars[j..] <= k then Lookup(h.kids[0], k[|h.chars| - j..])
            else None
  {
    hide *;
    AsLink(h);
    LinkLookup(h.val, h.chars, h.kids[0], h.chars[..j] + k);
    RestOf(h.chars, j, k);
  }

  lemma SplitLookup(h: Node, j: nat, k: Key)
    requires h.compr && Good(h, false) && j < |h.chars|
    ensures Good(SplitNode(h, j), false)
    ensures Lookup(SplitNode(h, j), k) == Lookup(h, h.chars[..j] + k)
  {
    SplitGood(h, j, false);
    FrontLookup(h, j, k);
    SplitNodeLookup(h, j, k);
  }

  lemma BackLookup(h: Node, j: nat, k: Key)
    requires h.compr && Good(h, false) && 0 < j < |h.chars|
    ensures Good(Link(None, h.chars[j..], h.kids[0]), false)
    ensures Lookup(Link(None, h.chars[j..], h.kids[0]), k) == Lookup(h, h.chars[..j] + k)
  {
    hide *;
    AsLink(h);
    FrontLookup(h, j, k);
    LinkLookup(None, h.chars[j..], h.kids[0], k);
  }

  lemma SplitNodeLookup(h: Node, j: nat, k: Key)
    requires h.compr && Good(h, false) && j < |h.chars|
    requires Good(SplitRest(h, j), false) && !Hollow(SplitRest(h, j))
    ensures Good(SplitNode(h, j), false)
    ensures Lookup(SplitNode(h, j), k) ==
            if k == [] then SplitNode(h, j).val
            else if h.chars[j..] <= k then Lookup(h.kids[0], k[|h.chars| - j..])
            else None
  {
    assert Good(h.kids[0], false) && !Hollow(h.kids[0]) && |h.chars| <= NODE_MAX_SIZE;
    hide Good, Lookup, Hollow, SplitRest;
    var l, rest := h.chars, SplitRest(h, j);
    LinkLookup(SplitNode(h, j).val, [l[j]], rest, k);
    assert l[j..] == [l[j]] + l[j + 1..];
    PrefixSplit([l[j]], l[j + 1..], k);
    if [l[j]] <= k && j + 1 < |l| {
      LinkLookup(None, l[j + 1..], h.kids[0], k[1..]);
      assert l[j + 1..] <= k[1..] ==> k[1..][|l| - j - 1..] == k[|l| - j..];
    }
  }

  /** Cutting a compressed node in the middle: the front part keeps the value of the node. */
  lemma SplitRecut(h: Node, j: nat, g: Node, x: Node)
    requires h.compr && Good(h, false) && 0 < j < |h.chars|
    requires g == SplitNode(h, j) || g == Link(None, h.chars[j..], h.kids[0])
    ensures Recut(h, Frame(Link(h.val, h.chars[..j], x), 0), g)
  {
    var l, f := h.chars[..j], Frame(Link(h.val, h.chars[..j], x), 0);
    SplitLookup(h, j, []);
    BackLookup(h, j, []);
    assert Step(f) == l;
    assert FrameGood(f, false);
    SetLinkChild(h.val, l, x, KEY_LEAF);
    forall k ensures Lookup(h, Step(f) + k) == Lookup(g, k) {
      SplitLookup(h, j, k);
      BackLookup(h, j, k);
    }
    LinkLookup(h.val, l, KEY_LEAF, []);
    forall r | !(Step(f) <= r) ensures Lookup(SetChild(f, KEY_LEAF), r) == Lookup(h, r) {
      LinkLookup(h.val, l, KEY_LEAF, r);
      assert h.chars <= r ==> l <= r;
    }
  }

  /** The context holds the keys of t that do not pass through the hole, h the others. */
  ghost predicate Pending(t: Node, st: Stack, h: Node) {
    && Good(t, false) && Good(h, false) && CtxGood(st, false)
    && StackOk(st) && Good(Plug(st, KEY_LEAF), false)
    && (forall k | !(Path(st) <= k) :: Lookup(Plug(st, KEY_LEAF), k) == Lookup(t, k))
    && (forall k :: Lookup(t, Path(st) + k) == Lookup(h, k))
  }

  lemma PendingStart(t: Node, st: Stack, h: Node)
    requires Good(t, false) && Chain(t, st, h)
    ensures Pending(t, st, h)
  {
    ChainGood(t, st, h, false);
    ChainPlug(t, st, h);
    PlugGood(st, KEY_LEAF, false);
    forall k | !(Path(st) <= k) ensures Lookup(Plug(st, KEY_LEAF), k) == Lookup(t, k) {
      PlugOutside(st, KEY_LEAF, h, k);
    }
    forall k ensures Lookup(t, Path(st) + k) == Lookup(h, k) {
      PlugInside(st, h, k);
    }
  }

  lemma PendingCutOutside(t: Node, st: Stack, h: Node, f: Frame, g: Node, k: Key)
    requires Pending(t, st, h) && Recut(h, f, g) && Fits(st, f.node, false)
    requires Good(Plug(st, SetChild(f, KEY_LEAF)), false) && !(Path(st) + Step(f) <= k)
    ensures Lookup(Plug(st, SetChild(f, KEY_LEAF)), k) == Lookup(t, k)
  {
    var n := SetChild(f, KEY_LEAF);
    PlugLookup(st, n, KEY_LEAF, k);
    if Path(st) <= k {
      var r := k[|Path(st)|..];
      PrefixSplit(Path(st), Step(f), k);
      assert k == Path(st) + r;
      assert Lookup(n, r) == Lookup(h, r);
    }
  }

  lemma PendingCutInside(t: Node, st: Stack, h: Node, f: Frame, g: Node, k: Key)
    requires Pending(t, st, h) && Recut(h, f, g)
    ensures Lookup(t, Path(st) + Step(f) + k) == Lookup(g, k)
  {
    assert Path(st) + Step(f) + k == Path(st) + (Step(f) + k);
    assert Lookup(t, Path(st) + (Step(f) + k)) == Lookup(h, Step(f) + k);
  }

  /** Moving the hole down into a node that was just rewritten. */
  lemma PendingCut(t: Node, st: Stack, h: Node, f: Frame, g: Node)
    requires Pending(t, st, h) && Recut(h, f, g) && Fits(st, f.node, false)
    ensures Pending(t, st + [f], g)
  {
    var st' := st + [f];
    PushStack(st, f, KEY_LEAF);
    assert CtxGood(st', false) by { assert Init(st') == st && Top(st') == f; }
    PlugGood(st', KEY_LEAF, false);
    forall k | !(Path(st') <= k) ensures Lookup(Plug(st', KEY_LEAF), k) == Lookup(t, k) {
      PendingCutOutside(t, st, h, f, g, k);
    }
    forall k ensures Lookup(t, Path(st') + k) == Lookup(g, k) {
      PendingCutInside(t, st, h, f, g, k);
    }
  }

  /** t is t0 with s set to v, and maximally compressed when canon says so. */
  ghost predicate Sets(t0: Node, t: Node, s: Key, v: Ptr, canon: bool) {
    && Good(t0, false) && Good(t, false) && Good(t, canon)
    && forall k :: Lookup(t, k) == if k == s then Some(v) else Lookup(t0, k)
  }

  lemma KeyedGood(h: Node, v: Ptr, canon: bool)
    requires Good(h, canon)
    ensures Good(h.(val := Some(v)), canon)
  {
    var g := h.(val := Some(v));
    forall i | 0 <= i < |g.kids| ensures Hangs(g, g.kids[i], canon) {
      assert Hangs(h, h.kids[i], canon);
    }
  }

  /** What is needed of the pending insertion to look one key up. */
  lemma PendingDoneParts(t: Node, st: Stack, h: Node, v: Ptr, k: Key)
    requires Pending(t, st, h) && Good(h.(val := Some(v)), false)
    ensures CtxGood(st, false) && StackOk(st) && Fits(st, h.(val := Some(v)), false)
    ensures Good(KEY_LEAF, false) && Fits(st, KEY_LEAF, false) && Good(Plug(st, KEY_LEAF), false) && Good(t, false)
    ensures if Path(st) <= k
            then Lookup(h.(val := Some(v)), k[|Path(st)|..]) == if k == Path(st) then Some(v) else Lookup(t, k)
            else Lookup(Plug(st, KEY_LEAF), k) == Lookup(t, k)
  {
    if Path(st) <= k {
      var r := k[|Path(st)|..];
      assert k == Path(st) + r;
      assert Lookup(t, Path(st) + r) == Lookup(h, r);
      assert r != [] ==> Lookup(h.(val := Some(v)), r) == Lookup(h, r);
    }
  }

  lemma PendingDoneLookup(t: Node, st: Stack, h: Node, v: Ptr, k: Key)
    requires Pending(t, st, h) && Good(h.(val := Some(v)), false) && Good(Plug(st, h.(val := Some(v))), false)
    ensures Lookup(Plug(st, h.(val := Some(v))), k) == if k == Path(st) then Some(v) else Lookup(t, k)
  {
    var g := h.(val := Some(v));
    PendingDoneParts(t, st, h, v, k);
    hide Pending, Plug, Good, Path, Lookup;
    PlugLookup(st, g, KEY_LEAF, k);
  }

  /** Giving the node in the hole its value completes the insertion. */
  lemma PendingDone(t: Node, st: Stack, h: Node, v: Ptr, canon: bool)
    requires Pending(t, st, h) && CtxGood(st, canon) && Good(h, canon)
    ensures Sets(t, Plug(st, h.(val := Some(v))), Path(st), v, canon)
  {
    KeyedGood(h, v, canon);
    KeyedGood(h, v, false);
    PlugGood(st, h.(val := Some(v)), canon);
    PlugGood(st, h.(val := Some(v)), false);
    forall k ensures Lookup(Plug(st, h.(val := Some(v))), k) == if k == Path(st) then Some(v) else Lookup(t, k) {
      PendingDoneLookup(t, st, h, v, k);
    }
  }

  // ---------------------------------------------------------------- the growth loop

  /** A child may be added below t without the parent becoming able to absorb it. */
  predicate Room(st: Stack, t: Node, canon: bool) {
    st != [] && canon && |Top(st).node.kids| == 1 ==> t.val.Some? || t.kids != []
  }

  /** What remains of s from byte i on makes one node below t, or an edge of t and one node: the
      growth loop need not cut it where nothing branches off. */
  predicate SnugAt(t: Node, s: Key, i: nat)
    requires i <= |s|
  {
    |s| - i <= NODE_MAX_SIZE + if t.chars == [] then 0 else 1
  }

  /** The first i bytes of s have been placed; t is the node where the next one goes. */
  ghost predicate Growing(t0: Node, st: Stack, t: Node, s: Key, i: nat, canon: bool) {
    var pending := Pending(t0, st, t) && CtxGood(st, canon);
    var below := !t.compr && forall j | 0 <= j < |t.kids| :: Good(t.kids[j], canon) && !Hollow(t.kids[j]);
    && pending && below
    && i <= |s| && Path(st) == s[..i] && (canon ==> SnugAt(t, s, i))
    && if i < |s| then s[i] !in t.chars && Room(st, t, canon) else t == EMPTY
  }

  /** The node the next turn of the loop makes of t, with the hole in its new child. */
  function Grown(t: Node, s: Key, i: nat): (f: Frame)
    requires i < |s| && !t.compr && Format(t)
  {
    if t.chars == [] && |s| - i > 1 then CompressNode(t, s[i..i + Turn(t, s, i)]) else AddChild(t, s[i])
  }

  /** How many bytes the next turn of the loop places. */
  function Turn(t: Node, s: Key, i: nat): (n: nat)
    requires i < |s|
    ensures 1 <= n <= |s| - i
  {
    if t.chars == [] && |s| - i > 1 then (if |s| - i > NODE_MAX_SIZE then NODE_MAX_SIZE else |s| - i) else 1
  }

  lemma GrownRecut(t: Node, s: Key, i: nat, canon: bool)
    requires i < |s| && !t.compr && Good(t, false) && s[i] !in t.chars
    requires forall j | 0 <= j < |t.kids| :: Good(t.kids[j], canon) && !Hollow(t.kids[j])
    ensures var f := Grown(t, s, i);
            Recut(t, f, EMPTY) && FrameGood(f, canon) && Step(f) == s[i..i + Turn(t, s, i)]
  {
    var f := Grown(t, s, i);
    if t.chars == [] && |s| - i > 1 {
      CompressRecut(t, f.node.chars);
    } else {
      AddChildRecut(t, s[i]);
      AddChildGood(t, s[i], canon);
    }
  }

  lemma GrownCtx(st: Stack, t: Node, s: Key, i: nat, canon: bool)
    requires CtxGood(st, canon) && i < |s| && !t.compr && Format(t) && Room(st, t, canon)
    requires FrameGood(Grown(t, s, i), canon) && (canon ==> SnugAt(t, s, i))
    ensures var f := Grown(t, s, i);
            Fits(st, f.node, canon) && Fits(st, f.node, false) && CtxGood(st + [f], canon) &&
            (i + Turn(t, s, i) < |s| ==> Room(st + [f], EMPTY, canon))
  {
    hide Good, FrameGood;
    var f := Grown(t, s, i);
    assert Init(st + [f]) == st && Top(st + [f]) == f;
  }

  lemma GrowingStep(t0: Node, st: Stack, t: Node, s: Key, i: nat, canon: bool)
    requires Growing(t0, st, t, s, i, canon) && i < |s|
    ensures var f := Grown(t, s, i);
            FrameOk(f) && Growing(t0, st + [f], EMPTY, s, i + Turn(t, s, i), canon)
  {
    var f := Grown(t, s, i);
    GrownRecut(t, s, i, canon);
    GrownCtx(st, t, s, i, canon);
    PendingCut(t0, st, t, f, EMPTY);
    PushStack(st, f, EMPTY);
    TakeMore(s, i, Turn(t, s, i));
  }

  lemma TakeMore(s: Key, i: nat, n: nat)
    requires i + n <= |s|
    ensures s[..i + n] == s[..i] + s[i..i + n]
  {
  }

  /** The key will be cut into a chain: something of it has been, or will be. */
  ghost predicate Spoiled(st: Stack, t: Node, s: Key, i: nat)
    requires i <= |s|
  {
    !CtxGood(st, true) || (i < |s| && !(SnugAt(t, s, i) && Room(st, t, true)))
  }

  lemma SpoiledStep(st: Stack, t: Node, s: Key, i: nat)
    requires i < |s| && !t.compr && Format(t) && Spoiled(st, t, s, i)
    ensures Spoiled(st + [Grown(t, s, i)], EMPTY, s, i + Turn(t, s, i))
  {
    hide Good, FrameGood;
    var f := Grown(t, s, i);
    assert Init(st + [f]) == st && Top(st + [f]) == f;
  }

  lemma SpoiledDone(st: Stack, s: Key, v: Ptr)
    requires StackOk(st) && Spoiled(st, EMPTY, s, |s|)
    ensures !Good(Plug(st, EMPTY.(val := Some(v))), true)
  {
    if Good(Plug(st, EMPTY.(val := Some(v))), true) {
      PlugGoodOnly(st, EMPTY.(val := Some(v)), true);
    }
  }

  lemma AddChildNodes(t: Node, c: Byte)
    requires |t.chars| == |t.kids|
    ensures var f := AddChild(t, c);
            f.idx < |f.node.kids| &&
            SumNodes(f.node.kids[..f.idx]) + SumNodes(f.node.kids[f.idx + 1..]) == SumNodes(t.kids)
  {
    hide SumNodes;
    var f := AddChild(t, c);
    var l, r := t.kids[..f.idx], t.kids[f.idx..];
    assert f.node.kids[..f.idx] == l && f.node.kids[f.idx + 1..] == r && t.kids == l + r;
    SumNodesConcat(l, r);
  }

  lemma PushNodes(st: Stack, f: Frame)
    requires StackOk(st) && FrameOk(f) && StackOk(st + [f])
    ensures CtxNodes(st + [f]) ==
            CtxNodes(st) + 1 + SumNodes(f.node.kids[..f.idx]) + SumNodes(f.node.kids[f.idx + 1..])
  {
    assert Init(st + [f]) == st && Top(st + [f]) == f;
  }

  lemma GrownNodes(st: Stack, t: Node, s: Key, i: nat)
    requires StackOk(st) && i < |s| && !t.compr && Format(t) && FrameOk(Grown(t, s, i))
    ensures StackOk(st + [Grown(t, s, i)])
    ensures CtxNodes(st + [Grown(t, s, i)]) == CtxNodes(st) + Nodes(t)
  {
    var f := Grown(t, s, i);
    PushStack(st, f, EMPTY);
    PushNodes(st, f);
    if t.chars == [] && |s| - i > 1 {
      assert f.node.kids[..0] == [] && f.node.kids[1..] == [];
    } else {
      AddChildNodes(t, s[i]);
    }
  }

  /** The same, with n nodes in the tree so far. */
  ghost predicate GrowingTo(t0: Node, st: Stack, t: Node, s: Key, i: nat, canon: bool, n: int) {
    var growing := Growing(t0, st, t, s, i, canon);
    growing && n == CtxNodes(st) + Nodes(t)
  }

  lemma GrowingToStep(t0: Node, st: Stack, t: Node, s: Key, i: nat, canon: bool, n: int)
    requires GrowingTo(t0, st, t, s, i, canon, n) && i < |s|
    ensures GrowingTo(t0, st + [Grown(t, s, i)], EMPTY, s, i + Turn(t, s, i), canon, n + 1)
  {
    GrowingStep(t0, st, t, s, i, canon);
    GrownNodes(st, t, s, i);
  }

  /** The walk stopped at a plain node without a matching edge. */
  lemma GrowingFromPlain(t0: Node, st: Stack, h: Node, s: Key, i: nat, canon: bool)
    requires Good(t0, canon) && Good(t0, false) && Chain(t0, st, h) && StackOk(st)
    requires i < |s| && Path(st) == s[..i] && (canon ==> SnugAt(h, s, i))
    requires !h.compr && s[i] !in h.chars
    ensures Growing(t0, st, h, s, i, canon)
  {
    PendingStart(t0, st, h);
    ChainGood(t0, st, h, canon);
    forall k | 0 <= k < |h.kids| ensures Good(h.kids[k], canon) && !Hollow(h.kids[k]) {
      assert Hangs(h, h.kids[k], canon);
    }
  }

  lemma PendingSame(t0: Node, st: Stack, h: Node, g: Node)
    requires Pending(t0, st, h) && Good(g, false) && forall k :: Lookup(g, k) == Lookup(h, k)
    ensures Pending(t0, st, g)
  {
  }

  /** The stack above the split node of ALGO 1. */
  function SplitStack(st: Stack, h: Node, j: nat): Stack
    requires h.compr && |h.kids| == 1 && j < |h.chars|
  {
    if j == 0 then st else st + [Frame(Link(h.val, h.chars[..j], SplitNode(h, j)), 0)]
  }

  lemma PendingSplit(t0: Node, st: Stack, h: Node, j: nat, canon: bool)
    requires Pending(t0, st, h) && h.compr && Good(h, canon) && j < |h.chars|
    requires CtxGood(st, canon) && Fits(st, h, canon)
    ensures Pending(t0, SplitStack(st, h, j), SplitNode(h, j)) && CtxGood(SplitStack(st, h, j), canon)
    ensures Path(SplitStack(st, h, j)) == Path(st) + h.chars[..j]
  {
    var g := SplitNode(h, j);
    if j == 0 {
      SplitLookup(h, 0, []);
      forall k ensures Lookup(g, k) == Lookup(h, k) {
        SplitLookup(h, 0, k);
        assert h.chars[..0] + k == k;
      }
      PendingSame(t0, st, h, g);
      assert Path(st) + h.chars[..0] == Path(st);
    } else {
      var f := Frame(Link(h.val, h.chars[..j], g), 0);
      SplitRecut(h, j, g, g);
      PendingCut(t0, st, h, f, g);
      assert Step(f) == h.chars[..j];
      PushLink(st, f, canon);
      PushStack(st, f, g);
    }
  }

  /** The split node has one edge, behind the character that did not match. */
  lemma SplitEdge(h: Node, j: nat, canon: bool)
    requires h.compr && Good(h, canon) && j < |h.chars|
    ensures |h.kids| == 1 && !SplitNode(h, j).compr && SplitNode(h, j).chars == [h.chars[j]]
    ensures |SplitNode(h, j).kids| == 1
    ensures Good(SplitNode(h, j).kids[0], canon) && !Hollow(SplitNode(h, j).kids[0])
  {
    SplitGood(h, j, canon);
  }

  lemma GrowingBy(t0: Node, st: Stack, t: Node, s: Key, i: nat, canon: bool)
    requires Pending(t0, st, t) && CtxGood(st, canon) && !t.compr && |t.kids| == 1 && |t.chars| == 1
    requires Good(t.kids[0], canon) && !Hollow(t.kids[0])
    requires i < |s| && StackOk(st) && Path(st) == s[..i] && t.chars[0] != s[i]
    requires canon ==> |s| - i <= NODE_MAX_SIZE + 1
    ensures Growing(t0, st, t, s, i, canon)
  {
    hide Pending, CtxGood, Path, Good, Hollow;
  }

  lemma SnugBehind(h: Node, s: Key, i: nat)
    requires i <= |s| && h.chars != [] && SnugAt(h, s, i)
    ensures |s| - i <= NODE_MAX_SIZE + 1
  {
  }

  /** The walk stopped at a mismatch at character j of the compressed node h, which is split. */
  lemma GrowingFromSplit(t0: Node, st: Stack, h: Node, j: nat, s: Key, i: nat, canon: bool)
    requires Good(t0, canon) && Good(t0, false) && Chain(t0, st, h) && StackOk(st)
    requires h.compr && j < |h.chars| && i < |s| && Path(st) + h.chars[..j] == s[..i]
    requires h.chars[j] != s[i] && (canon ==> SnugAt(h, s, i))
    ensures |h.kids| == 1 && Growing(t0, SplitStack(st, h, j), SplitNode(h, j), s, i, canon)
  {
    hide *;
    PendingStart(t0, st, h);
    ChainGood(t0, st, h, canon);
    SplitEdge(h, j, canon);
    PendingSplit(t0, st, h, j, canon);
    if canon { SnugBehind(h, s, i); }
    GrowingBy(t0, SplitStack(st, h, j), SplitNode(h, j), s, i, canon);
  }

  lemma SplitNodes(st: Stack, h: Node, j: nat)
    requires StackOk(st) && h.compr && |h.kids| == 1 && j < |h.chars| && StackOk(SplitStack(st, h, j))
    ensures CtxNodes(SplitStack(st, h, j)) + Nodes(SplitNode(h, j)) ==
            CtxNodes(st) + Nodes(h) + (if j > 0 then 1 else 0) + (if j + 1 < |h.chars| then 1 else 0)
  {
    OneKidNodes(h);
    OneKidNodes(SplitNode(h, j));
    if j + 1 < |h.chars| {
      OneKidNodes(SplitRest(h, j));
    }
    if j > 0 {
      assert Init(SplitStack(st, h, j)) == st;
      assert Top(SplitStack(st, h, j)).node.kids[1..] == [];
    }
  }

  lemma PrefixNodes(st: Stack, h: Node, j: nat, v: Ptr)
    requires StackOk(st) && |h.kids| == 1 && j <= |h.chars|
    ensures Nodes(Plug(st, Link(h.val, h.chars[..j], Link(Some(v), h.chars[j..], h.kids[0])))) == Nodes(Plug(st, h)) + 1
  {
    var g := Link(Some(v), h.chars[j..], h.kids[0]);
    PlugNodes(st, h);
    PlugNodes(st, Link(h.val, h.chars[..j], g));
    OneKidNodes(h);
    OneKidNodes(g);
    OneKidNodes(Link(h.val, h.chars[..j], g));
  }

  lemma PendingKeeps(t: Node, st: Stack, h: Node)
    requires Pending(t, st, h)
    ensures Good(h, false)
  {
  }

  lemma PrefixFrame(st: Stack, h: Node, j: nat, canon: bool)
    requires h.compr && Good(h, canon) && 0 < j < |h.chars| && Fits(st, h, canon)
    ensures var f := Frame(Link(h.val, h.chars[..j], Link(None, h.chars[j..], h.kids[0])), 0);
            FrameOk(f) && Step(f) == h.chars[..j] && |f.node.kids| == 1 &&
            Fits(st, f.node, canon) && Fits(st, f.node, false)
  {
  }

  lemma PendingPrefix(t0: Node, st: Stack, h: Node, j: nat, canon: bool)
    requires Pending(t0, st, h) && h.compr && Good(h, canon) && 0 < j < |h.chars|
    requires CtxGood(st, canon) && Fits(st, h, canon)
    ensures var g := Link(None, h.chars[j..], h.kids[0]);
            var f := Frame(Link(h.val, h.chars[..j], g), 0);
            FrameOk(f) && Step(f) == h.chars[..j] && Pending(t0, st + [f], g) && CtxGood(st + [f], canon) &&
                Good(g, canon)
  {
    var g := Link(None, h.chars[j..], h.kids[0]);
    var f := Frame(Link(h.val, h.chars[..j], g), 0);
    SplitGood(h, j, canon);
    PendingKeeps(t0, st, h);
    PrefixFrame(st, h, j, canon);
    hide Pending, Good, CtxGood, Recut, Lookup, Link;
    SplitRecut(h, j, g, g);
    PendingCut(t0, st, h, f, g);
    PushLink(st, f, canon);
  }

  lemma LinkKeyed(l: Key, g: Node, v: Ptr)
    ensures Link(None, l, g).(val := Some(v)) == Link(Some(v), l, g)
  {
  }

  /** ALGO 2: s ends inside the compressed node h; the cut-off part becomes the node of s. */
  lemma PrefixDone(t0: Node, st: Stack, h: Node, j: nat, v: Ptr, canon: bool)
    requires Good(t0, canon) && Good(t0, false) && Chain(t0, st, h)
    requires h.compr && 0 < j < |h.chars|
    ensures StackOk(st) && |h.kids| == 1
    ensures var t' := Plug(st, Link(h.val, h.chars[..j], Link(Some(v), h.chars[j..], h.kids[0])));
            Sets(t0, t', Path(st) + h.chars[..j], v, canon) && Nodes(t') == Nodes(t0) + 1
  {
    hide *;
    PendingStart(t0, st, h);
    ChainPlug(t0, st, h);
    ChainGood(t0, st, h, canon);
    ChainGood(t0, st, h, false);
    AsLink(h);
    LinkKeyed(h.chars[j..], h.kids[0], v);
    PendingPrefix(t0, st, h, j, canon);
    var g, g' := Link(None, h.chars[j..], h.kids[0]), Link(Some(v), h.chars[j..], h.kids[0]);
    var f := Frame(Link(h.val, h.chars[..j], g), 0);
    PendingDone(t0, st + [f], g, v, canon);
    PushStack(st, f, g');
    SetLinkChild(h.val, h.chars[..j], g, g');
    PrefixNodes(st, h, j, v);
  }

  /** Setting the value of the node at the position. */
  lemma SetDone(t0: Node, st: Stack, h: Node, v: Ptr, canon: bool)
    requires Good(t0, canon) && Good(t0, false) && Chain(t0, st, h)
    ensures StackOk(st)
    ensures var t' := Plug(st, h.(val := Some(v)));
            Sets(t0, t', Path(st), v, canon) && Nodes(t') == Nodes(t0) && Lookup(t0, Path(st)) == h.val
  {
    PendingStart(t0, st, h);
    ChainGood(t0, st, h, canon);
    ChainPlug(t0, st, h);
    PendingDone(t0, st, h, v, canon);
    PlugNodes(st, h);
    PlugNodes(st, h.(val := Some(v)));
    assert Path(st) + [] == Path(st);
  }

  /** The growth loop is over: the new leaf becomes the node of s. */
  lemma GrowingDone(t0: Node, st: Stack, h: Node, s: Key, v: Ptr, canon: bool, n: int)
    requires GrowingTo(t0, st, h, s, |s|, canon, n)
    ensures StackOk(st) && h == EMPTY
    ensures var t' := Plug(st, h.(val := Some(v))); Sets(t0, t', s, v, canon) && n == Nodes(t')
  {
    PendingDone(t0, st, h, v, canon);
    PlugNodes(st, h.(val := Some(v)));
    assert s[..|s|] == s;
  }

  lemma GrowingToFromPlain(t0: Node, st: Stack, h: Node, s: Key, i: nat, canon: bool)
    requires Good(t0, canon) && Good(t0, false) && Chain(t0, st, h) && StackOk(st)
    requires i < |s| && Path(st) == s[..i] && (canon ==> SnugAt(h, s, i))
    requires !h.compr && s[i] !in h.chars
    ensures GrowingTo(t0, st, h, s, i, canon, Nodes(t0))
  {
    GrowingFromPlain(t0, st, h, s, i, canon);
    ChainPlug(t0, st, h);
    PlugNodes(st, h);
  }

  lemma GrowingToFromSplit(t0: Node, st: Stack, h: Node, j: nat, s: Key, i: nat, canon: bool)
    requires Good(t0, canon) && Good(t0, false) && Chain(t0, st, h) && StackOk(st)
    requires h.compr && j < |h.chars| && i < |s| && Path(st) + h.chars[..j] == s[..i]
    requires h.chars[j] != s[i] && (canon ==> SnugAt(h, s, i))
    ensures |h.kids| == 1
    ensures GrowingTo(t0, SplitStack(st, h, j), SplitNode(h, j), s, i, canon,
                      Nodes(t0) + (if j > 0 then 1 else 0) + (if j + 1 < |h.chars| then 1 else 0))
  {
    GrowingFromSplit(t0, st, h, j, s, i, canon);
    SplitNodes(st, h, j);
    ChainPlug(t0, st, h);
    PlugNodes(st, h);
  }
}
