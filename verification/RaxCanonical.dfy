/** Maximally compressed trees are canonical: the map determines the tree. */
module RaxCanonical {
  import opened Bytes
  import opened RaxTree

  ghost predicate SameLookup(a: Node, b: Node)
    requires Good(a, false) && Good(b, false)
  {
    forall k :: Lookup(a, k) == Lookup(b, k)
  }

  /** A non-empty key goes down some edge. */
  lemma EdgeForKey(n: Node, k: Key) returns (i: nat)
    requires Good(n, false) && k != [] && Lookup(n, k).Some?
    ensures i < |n.kids| && Label(n, i) <= k
  {
    i := Edge(n, k);
  }

  lemma KeyBelow(n: Node, i: nat) returns (k: Key)
    requires Good(n, false) && i < |n.kids|
    ensures Label(n, i) <= k && Lookup(n, k).Some? && k != []
  {
    assert Hangs(n, n.kids[i], false);
    var r := SomeKey(n.kids[i]);
    LookupChild(n, i, r);
    k := Label(n, i) + r;
  }

  /** Two branches of a node with several children are told apart by their first byte. */
  lemma TwoKeys(n: Node) returns (k: Key, m: Key)
    requires Good(n, false) && |n.kids| >= 2
    ensures Lookup(n, k).Some? && Lookup(n, m).Some? && k != [] && m != [] && k[0] != m[0]
  {
    k := KeyBelow(n, 0);
    m := KeyBelow(n, 1);
    assert n.chars[0] < n.chars[1];
  }

  /** The only edge of a maximally compressed node cannot be a proper prefix of the only
      edge of another one with the same keys. */
  lemma SingleLabel(a: Node, b: Node)
    requires Good(a, true) && Good(b, true) && Good(a, false) && Good(b, false) && SameLookup(a, b)
    requires |a.kids| == |b.kids| == 1 && Label(a, 0) <= Label(b, 0)
    ensures Label(a, 0) == Label(b, 0)
  {
    var l := Label(a, 0);
    var c := a.kids[0];
    assert Hangs(a, c, true);
    GoodWeaken(c);
    if l != Label(b, 0) {
      if c.val.Some? {
        LookupChild(a, 0, []);
        assert l + [] == l;
        var j := EdgeForKey(b, l);
        assert false;
      } else {
        var k, m := TwoKeys(c);
        LookupChild(a, 0, k);
        LookupChild(a, 0, m);
        assert (l + k)[|l|] == k[0] && (l + m)[|l|] == m[0];
        var i := EdgeForKey(b, l + k);
        var j := EdgeForKey(b, l + m);
        assert false;
      }
    }
  }

  function FirstBytes(n: Node): (bs: Key)
    requires Format(n)
    ensures |bs| == |n.kids| && Sorted(bs)
    ensures forall i | 0 <= i < |bs| :: bs[i] == Label(n, i)[0]
  {
    if n.compr then [n.chars[0]] else n.chars
  }

  lemma {:induction false} SortedSame(a: Key, b: Key)
    requires Sorted(a) && Sorted(b)
    requires forall c :: c in a <==> c in b
    ensures a == b
  {
    if a == [] {
      assert forall i | 0 <= i < |b| :: b[i] in a;
    } else {
      assert a[0] in b && b != [] && b[0] in a;
      assert a[0] == b[0];
      assert a == [a[0]] + a[1..] && b == [b[0]] + b[1..];
      assert a[0] !in a[1..] && b[0] !in b[1..];
      forall c
        ensures c in a[1..] <==> c in b[1..]
      {
        assert c in a <==> c == a[0] || c in a[1..];
        assert c in b <==> c == b[0] || c in b[1..];
      }
      SortedSame(a[1..], b[1..]);
    }
  }

  lemma EdgeBytes(a: Node, b: Node, c: Byte)
    requires Good(a, false) && Good(b, false) && SameLookup(a, b) && c in FirstBytes(a)
    ensures c in FirstBytes(b)
  {
    var i :| 0 <= i < |a.kids| && FirstBytes(a)[i] == c;
    var k := KeyBelow(a, i);
    assert k[0] == c;
    var j := EdgeForKey(b, k);
    assert FirstBytes(b)[j] == c;
  }

  /** Same number of children, and the same edges. */
  lemma SameEdges(a: Node, b: Node)
    requires Good(a, true) && Good(b, true) && Good(a, false) && Good(b, false) && SameLookup(a, b)
    ensures |a.kids| == |b.kids| && a.compr == b.compr && a.chars == b.chars
  {
    forall c ensures c in FirstBytes(a) <==> c in FirstBytes(b) {
      if c in FirstBytes(a) { EdgeBytes(a, b, c); }
      if c in FirstBytes(b) { EdgeBytes(b, a, c); }
    }
    SortedSame(FirstBytes(a), FirstBytes(b));
    if |a.kids| == 1 {
      var k := KeyBelow(a, 0);
      var j := EdgeForKey(b, k);
      if |Label(a, 0)| <= |Label(b, 0)| {
        SingleLabel(a, b);
      } else {
        SingleLabel(b, a);
      }
    }
  }

  /** Two maximally compressed trees with the same contents are the same tree. */
  lemma {:induction false} Canonical(a: Node, b: Node)
    requires Good(a, true) && Good(b, true) && Good(a, false) && Good(b, false) && SameLookup(a, b)
    ensures a == b
    decreases a
  {
    assert Lookup(a, []) == Lookup(b, []);
    SameEdges(a, b);
    forall i | 0 <= i < |a.kids|
      ensures a.kids[i] == b.kids[i]
    {
      var x, y := a.kids[i], b.kids[i];
      GoodWeaken(x);
      GoodWeaken(y);
      forall k ensures Lookup(x, k) == Lookup(y, k) {
        LookupChild(a, i, k);
        LookupChild(b, i, k);
      }
      Canonical(x, y);
    }
    assert a.kids == b.kids;
  }
}
