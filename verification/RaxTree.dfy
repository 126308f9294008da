/** The radix tree as a value: what the nodes hold, which trees are well formed,
    and what finite map and ordered listing a tree stands for. */
module RaxTree {
  import opened Wrappers
  import opened Bytes

  /** A data pointer; 0 is NULL, which is a legal value of a key. */
  type Ptr = int

  const NODE_MAX_SIZE: nat := 0x1FFF_FFFF

  /** One node. A compressed node holds a string leading to its only child, a plain node
      one byte per child. val is None exactly when iskey is 0. */
  datatype Node = Node(val: Option<Ptr>, compr: bool, chars: Key, kids: seq<Node>)

  const EMPTY: Node := Node(None, false, [], [])

  predicate Sorted(cs: Key) {
    forall i, j | 0 <= i < j < |cs| :: cs[i] < cs[j]
  }

  /** The layout of one node: parallel sorted arrays, or a compressed string of at least two bytes. */
  predicate Format(n: Node) {
    if n.compr then 2 <= |n.chars| <= NODE_MAX_SIZE && |n.kids| == 1
    else |n.chars| == |n.kids| && Sorted(n.chars)
  }

  /** A leaf that is not a key: only the root of an empty tree looks like this. */
  predicate Hollow(n: Node) {
    n.val.None? && n.kids == []
  }

  /** Not a key and with a single child: the parent could absorb it. */
  predicate Mergeable(n: Node) {
    n.val.None? && |n.kids| == 1
  }

  /** A child may hang from n: it is not hollow and, when canon asks for maximal
      compression, a single child cannot be absorbed. */
  predicate Hangs(n: Node, c: Node, canon: bool) {
    !Hollow(c) && (canon && |n.kids| == 1 ==> !Mergeable(c))
  }

  predicate Good(n: Node, canon: bool) {
    Format(n) && forall i | 0 <= i < |n.kids| :: Good(n.kids[i], canon) && Hangs(n, n.kids[i], canon)
  }

  lemma {:induction false} GoodWeaken(n: Node)
    requires Good(n, true)
    ensures Good(n, false)
  {
    forall i | 0 <= i < |n.kids|
      ensures Good(n.kids[i], false)
    {
      GoodWeaken(n.kids[i]);
    }
  }

  function IndexOf(cs: Key, b: Byte): (i: nat)
    ensures i <= |cs|
    ensures i < |cs| ==> cs[i] == b
    ensures forall j | 0 <= j < i :: cs[j] != b
  {
    if cs == [] then 0
    else if cs[0] == b then 0
    else
      var r := IndexOf(cs[1..], b);
      assert forall j | 1 <= j < r + 1 :: cs[j] == cs[1..][j - 1];
      r + 1
  }

  /** The string on the edge from n to its i-th child. */
  function Label(n: Node, i: nat): (l: Key)
    requires Format(n) && i < |n.kids|
    ensures l != []
  {
    if n.compr then n.chars else [n.chars[i]]
  }

  /** The child a non-empty key continues into, or |n.kids| when there is none. */
  function Edge(n: Node, k: Key): (i: nat)
    requires Format(n) && k != []
    ensures i <= |n.kids|
    ensures i < |n.kids| ==> Label(n, i) <= k
    ensures forall j | 0 <= j < |n.kids| && Label(n, j) <= k :: j == i
  {
    if n.compr then (if n.chars <= k then 0 else 1) else IndexOf(n.chars, k[0])
  }

  /** What the tree maps the key to. */
  function Lookup(n: Node, k: Key): Option<Ptr>
    requires Good(n, false)
    decreases n
  {
    if k == [] then n.val
    else
      var i := Edge(n, k);
      if i < |n.kids| then Lookup(n.kids[i], k[|Label(n, i)|..]) else None
  }

  /** Looking up below a child. */
  lemma LookupChild(n: Node, i: nat, k: Key)
    requires Good(n, false) && i < |n.kids|
    ensures Lookup(n, Label(n, i) + k) == Lookup(n.kids[i], k)
  {
    var l := Label(n, i) + k;
    assert Label(n, i) <= l;
    assert l[|Label(n, i)|..] == k;
  }

  function SumNodes(ks: seq<Node>): nat {
    if ks == [] then 0 else Nodes(ks[0]) + SumNodes(ks[1..])
  }

  /** How many nodes are reachable from n. */
  function Nodes(n: Node): (c: nat)
    ensures c >= 1
  {
    1 + SumNodes(n.kids)
  }

  lemma {:induction false} SumNodesConcat(a: seq<Node>, b: seq<Node>)
    ensures SumNodes(a + b) == SumNodes(a) + SumNodes(b)
  {
    if a == [] {
      assert a + b == b;
    } else {
      assert (a + b)[1..] == a[1..] + b;
      SumNodesConcat(a[1..], b);
    }
  }

  lemma OneKidNodes(n: Node)
    requires |n.kids| == 1
    ensures Nodes(n) == 1 + Nodes(n.kids[0])
  {
    assert n.kids[1..] == [];
    assert SumNodes(n.kids) == Nodes(n.kids[0]) + SumNodes(n.kids[1..]);
  }

  /** A tree with something in it has a key. */
  lemma {:induction false} SomeKey(n: Node) returns (k: Key)
    requires Good(n, false) && !Hollow(n)
    ensures Lookup(n, k).Some?
  {
    if n.val.Some? {
      k := [];
    } else {
      var r := SomeKey(n.kids[0]);
      LookupChild(n, 0, r);
      k := Label(n, 0) + r;
    }
  }
}
