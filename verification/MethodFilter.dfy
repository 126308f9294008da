/** The method filter: a string is judged by the rules that are prefixes of it, found by one
    walk down the tree of rules and the way back up. */
module MethodFilter {
  import opened Wrappers
  import opened Bytes
  import opened RaxTree
  import opened RaxZipper
  import opened RaxOrder
  import opened RaxHeap
  import opened Rax
  import opened RaxIterator

  const UNLISTED: Ptr := 0
  const WHITELISTED: Ptr := 1
  const BLACKLISTED: Ptr := 2

  /** A rule applies to every string it is a prefix of. */
  predicate Applies(m: map<Key, Ptr>, s: Key, k: Key) {
    k in m && k <= s
  }

  ghost predicate SomeApplies(m: map<Key, Ptr>, s: Key) {
    exists k :: Applies(m, s, k)
  }

  ghost predicate SomeWhitelists(m: map<Key, Ptr>, s: Key) {
    exists k :: Applies(m, s, k) && m[k] == WHITELISTED
  }

  /** The value of the shortest rule that applies. */
  ghost predicate ShortestSays(m: map<Key, Ptr>, s: Key, v: Ptr) {
    exists k :: Applies(m, s, k) && m[k] == v && forall l | Applies(m, s, l) :: |k| <= |l|
  }

  /** The verdict v on s: whitelisted if any applicable rule says so, otherwise what the
      shortest applicable rule says, and unlisted without any. */
  ghost predicate Decides(m: map<Key, Ptr>, s: Key, v: Ptr) {
    if SomeWhitelists(m, s) then v == WHITELISTED
    else if SomeApplies(m, s) then ShortestSays(m, s, v)
    else v == UNLISTED
  }

  /** The walk leaves the root: some rule shares the first byte. */
  ghost predicate Reached(m: map<Key, Ptr>, s: Key) {
    s != [] && exists k :: k in m && k != [] && k[0] == s[0]
  }

  lemma DecidesUnique(m: map<Key, Ptr>, s: Key, v: Ptr, w: Ptr)
    requires Decides(m, s, v) && Decides(m, s, w)
    ensures v == w
  {
    if !SomeWhitelists(m, s) && SomeApplies(m, s) {
      var k :| Applies(m, s, k) && m[k] == v && forall l | Applies(m, s, l) :: |k| <= |l|;
      var l :| Applies(m, s, l) && m[l] == w && forall x | Applies(m, s, x) :: |l| <= |x|;
      assert k == s[..|k|] && l == s[..|l|];
    }
  }

  /** With rules that only whitelist or blacklist: a whitelisting prefix wins, otherwise any
      rule that applies blacklists. */
  lemma TwoVerdicts(m: map<Key, Ptr>, s: Key, v: Ptr)
    requires Decides(m, s, v) && forall k | k in m :: m[k] == WHITELISTED || m[k] == BLACKLISTED
    ensures v == WHITELISTED <==> SomeWhitelists(m, s)
    ensures v == BLACKLISTED <==> SomeApplies(m, s) && !SomeWhitelists(m, s)
    ensures v == UNLISTED <==> !SomeApplies(m, s)
  {
    if !SomeWhitelists(m, s) && SomeApplies(m, s) {
      var k :| Applies(m, s, k) && m[k] == v && forall l | Applies(m, s, l) :: |k| <= |l|;
    }
  }

  /** Without a whitelisting rule the shortest one decides, and a whitelisting one over all: the rules
      F with 3 and Fo with 2, and with Foo whitelisted besides. */
  lemma ShortestDecides(v: Ptr, w: Ptr)
    requires Decides(map[[70] := 3, [70, 111] := 2], [70, 111, 111], v)
    requires Decides(map[[70] := 3, [70, 111] := 2, [70, 111, 111] := 1], [70, 111, 111], w)
    ensures v == 3 && w == 1
  {
    var m: map<Key, Ptr> := map[[70] := 3, [70, 111] := 2];
    assert Applies(m, [70, 111, 111], [70]);
    assert Applies(map[[70] := 3, [70, 111] := 2, [70, 111, 111] := 1], [70, 111, 111], [70, 111, 111]);
  }

  // ---------------------------------------------------------------- prefixes met on the way

  function At(t: Node, s: Key, j: nat): Option<Ptr>
    requires Good(t, false) && j <= |s|
  {
    Lookup(t, s[..j])
  }

  /** The prefix of length j is the shortest rule among those of at least n bytes. */
  predicate First(t: Node, s: Key, n: nat, j: nat)
    requires Good(t, false)
  {
    n <= j <= |s| && At(t, s, j).Some? && forall x | n <= x < j :: At(t, s, x).None?
  }

  /** Judged by the rules of at least n bytes, none of which whitelists, the verdict so far is b. */
  ghost predicate Judged(t: Node, s: Key, n: nat, b: Ptr)
    requires Good(t, false)
  {
    && n <= |s| + 1
    && (forall j | n <= j <= |s| :: At(t, s, j) != Some(WHITELISTED))
    && ((b == UNLISTED && forall j | n <= j <= |s| :: At(t, s, j).None?)
        || exists j :: First(t, s, n, j) && At(t, s, j) == Some(b))
  }

  lemma JudgedStart(t: Node, s: Key)
    requires Good(t, false)
    ensures Judged(t, s, |s| + 1, UNLISTED)
  {
  }

  /** Lengths without a rule change nothing. */
  lemma JudgedSkip(t: Node, s: Key, n: nat, b: Ptr, n': nat)
    requires Good(t, false) && Judged(t, s, n, b) && n' <= n
    requires forall j | n' <= j < n && j <= |s| :: At(t, s, j).None?
    ensures Judged(t, s, n', b)
  {
    if j: nat :| First(t, s, n, j) && At(t, s, j) == Some(b) {
      assert First(t, s, n', j);
    }
  }

  /** A rule of exactly n bytes takes over. */
  lemma JudgedRule(t: Node, s: Key, n: nat, b: Ptr, v: Ptr)
    requires Good(t, false) && Judged(t, s, n + 1, b) && n <= |s| && At(t, s, n) == Some(v) && v != WHITELISTED
    ensures Judged(t, s, n, v)
  {
    assert First(t, s, n, n);
  }

  lemma AppliesAt(t: Node, s: Key, k: Key)
    requires Good(t, false)
    ensures Applies(MapOf(t), s, k) <==> k <= s && At(t, s, |k|).Some?
    ensures Applies(MapOf(t), s, k) ==> At(t, s, |k|) == Some(MapOf(t)[k])
  {
    MapLookup(t, k);
    if k <= s { assert s[..|k|] == k; }
  }

  lemma JudgedDecides(t: Node, s: Key, b: Ptr)
    requires Good(t, false) && Judged(t, s, 0, b)
    ensures Decides(MapOf(t), s, b)
  {
    var m := MapOf(t);
    forall k | Applies(m, s, k) ensures At(t, s, |k|) == Some(m[k]) {
      AppliesAt(t, s, k);
    }
    assert !SomeWhitelists(m, s);
    if j: nat :| First(t, s, 0, j) && At(t, s, j) == Some(b) {
      var k := s[..j];
      AppliesAt(t, s, k);
      assert Applies(m, s, k) && m[k] == b;
      forall l | Applies(m, s, l) ensures |k| <= |l| {
        AppliesAt(t, s, l);
      }
    }
  }

  lemma WhiteDecides(t: Node, s: Key, n: nat)
    requires Good(t, false) && n <= |s| && At(t, s, n) == Some(WHITELISTED)
    ensures Decides(MapOf(t), s, WHITELISTED)
  {
    AppliesAt(t, s, s[..n]);
    assert Applies(MapOf(t), s, s[..n]);
  }

  // ---------------------------------------------------------------- where rules can end

  /** No key ends inside an edge. */
  lemma NoneInside(root: Node, st: Stack, t: Node, k: Key)
    requires Good(root, false) && Chain(root, st, t) && StackOk(st) && st != [] && k <= Path(st)
    requires |Path(Init(st))| < |k| < |Path(st)|
    ensures Lookup(root, k) == None
  {
    hide Good, Lookup, Plug;
    var f, up := Top(st), Init(st);
    ChainGood(root, up, f.node, false);
    ChainPlug(root, up, f.node);
    var r := k[|Path(up)|..];
    assert k == Path(up) + r && r < Step(f);
    PlugInside(up, f.node, r);
    NoneInLabel(f.node, f.idx, r);
  }

  lemma NoneInLabel(n: Node, i: nat, r: Key)
    requires Good(n, false) && i < |n.kids| && r != [] && r < Label(n, i)
    ensures Lookup(n, r) == None
  {
    assert n.compr && !(n.chars <= r);
  }

  lemma KeyAt(root: Node, st: Stack, t: Node)
    requires Good(root, false) && Chain(root, st, t) && StackOk(st)
    ensures Lookup(root, Path(st)) == t.val
  {
    ChainGood(root, st, t, false);
    ChainPlug(root, st, t);
    assert Path(st) + [] == Path(st);
    PlugInside(st, t, []);
  }

  /** Below the node where the walk stopped no key goes on like s. */
  lemma NoneBelow(h: Node, s: Key, i: nat, sp: nat, r: Key)
    requires Good(h, false) && i <= |s| && (if h.compr then sp < |h.chars| else sp == 0) && r != []
    requires i < |s| ==> if h.compr then h.chars[sp] != s[i] else s[i] !in h.chars
    requires r <= h.chars[..sp] + s[i..] || (i < |s| && h.chars[..sp] + [s[i]] <= r)
    ensures Lookup(h, r) == None
  {
    if h.compr {
      assert sp < |r| && i < |s| ==> r[sp] == s[i];
    } else {
      assert r[0] == s[i];
    }
  }

  /** What follows the path in a key that goes on like s. */
  lemma RestLike(path: Key, h: Key, sp: nat, s: Key, i: nat, k: Key) returns (r: Key)
    requires i <= |s| && sp <= |h| && s == path + (h[..sp] + s[i..])
    requires (|k| > |path| && k <= s) || (i < |s| && s[..i + 1] <= k)
    ensures r != [] && k == path + r
    ensures r <= h[..sp] + s[i..] || (i < |s| && h[..sp] + [s[i]] <= r)
  {
    assert path <= s[..i];
    assert k[..|path|] == path;
    r := k[|path|..];
    assert k == path + r;
    assert i < |s| ==> s[..i + 1] == path + (h[..sp] + [s[i]]);
  }

  /** No rule that applies is longer than the path to the node where the walk stopped, and no
      key at all shares more bytes with s than the walk consumed. */
  lemma NoneBeyond(root: Node, st: Stack, h: Node, s: Key, i: nat, sp: nat, k: Key)
    requires Good(root, false) && Chain(root, st, h) && Stopped(st, h, s, i, sp)
    ensures |k| > |Path(st)| && k <= s ==> Lookup(root, k) == None
    ensures i < |s| && s[..i + 1] <= k ==> Lookup(root, k) == None
  {
    hide *;
    StoppedRest(h, st, s, i, sp);
    ChainGood(root, st, h, false);
    ChainPlug(root, st, h);
    if (|k| > |Path(st)| && k <= s) || (i < |s| && s[..i + 1] <= k) {
      var r := RestLike(Path(st), h.chars, sp, s, i, k);
      PlugInside(st, h, r);
      NoneBelow(h, s, i, sp, r);
    }
  }

  /** The bytes the walk consumed are a prefix of some key, unless there is no key. */
  lemma WalkPrefix(root: Node, st: Stack, h: Node, s: Key, i: nat, sp: nat) returns (k: Key)
    requires Good(root, false) && Chain(root, st, h) && Stopped(st, h, s, i, sp) && !Hollow(root)
    ensures s[..i] <= k && Lookup(root, k).Some?
  {
    ChainGood(root, st, h, false);
    ChainPlug(root, st, h);
    StoppedRest(h, st, s, i, sp);
    var r;
    if sp > 0 {
      assert Hangs(h, h.kids[0], false);
      var below := SomeKey(h.kids[0]);
      LookupChild(h, 0, below);
      r := h.chars + below;
    } else {
      r := SomeKey(h);
    }
    PlugInside(st, h, r);
    k := Path(st) + r;
    assert s[..i] == Path(st) + h.chars[..sp];
  }

  /** raxLowWalk consumes exactly the longest prefix that s shares with any key. */
  lemma WalkLongest(root: Node, st: Stack, h: Node, s: Key, i: nat, sp: nat)
    requires Good(root, false) && Chain(root, st, h) && Stopped(st, h, s, i, sp)
    ensures i <= |s|
    ensures !Hollow(root) ==> exists k :: s[..i] <= k && k in MapOf(root)
    ensures forall j, k | i < j <= |s| && k in MapOf(root) :: !(s[..j] <= k)
    ensures i > 0 <==> Reached(MapOf(root), s)
  {
    hide Good, Chain, StackOk, Path, Lookup, MapOf, Hollow;
    StoppedRest(h, st, s, i, sp);
    if !Hollow(root) {
      var k := WalkPrefix(root, st, h, s, i, sp);
      MapLookup(root, k);
      assert i > 0 ==> s[..i][0] == k[0];
    } else {
      HollowStop(root, st, h, s, i, sp);
    }
    forall j, k | i < j <= |s| && k in MapOf(root) ensures !(s[..j] <= k) {
      MapLookup(root, k);
      NoneBeyond(root, st, h, s, i, sp, k);
      assert s[..i + 1] <= s[..j];
    }
    if i == 0 && s != [] {
      forall k | k in MapOf(root) && k != [] ensures k[0] != s[0] {
        assert !(s[..1] <= k);
        assert k[..1] == [k[0]] && s[..1] == [s[0]];
      }
    }
  }

  /** An empty tree is its root. */
  lemma {:induction false} RootHollow(root: Node, st: Stack, h: Node)
    requires Hollow(root) && Chain(root, st, h)
    ensures st == [] && h == root
  {
    if st != [] {
      RootHollow(root, Init(st), Top(st).node);
    }
  }

  /** In an empty tree the walk consumes nothing. */
  lemma HollowStop(root: Node, st: Stack, h: Node, s: Key, i: nat, sp: nat)
    requires Good(root, false) && Hollow(root) && Chain(root, st, h) && Stopped(st, h, s, i, sp)
    ensures i == 0
  {
    RootHollow(root, st, h);
  }

  // ---------------------------------------------------------------- the filter

  /** One node up: the node's own rule and the lengths inside the edge above it are judged. */
  lemma JudgedUp(root: Node, st: Stack, t: Node, s: Key, b: Ptr)
    requires Good(root, false) && Chain(root, st, t) && StackOk(st) && st != [] && Path(st) <= s
    requires Judged(root, s, |Path(st)|, b)
    ensures Path(Init(st)) <= s && Judged(root, s, |Path(Init(st))| + 1, b)
  {
    var n, n' := |Path(st)|, |Path(Init(st))| + 1;
    assert Path(Init(st)) == Path(st)[..n' - 1];
    forall j | n' <= j < n ensures At(root, s, j).None? {
      assert s[..j] <= Path(st);
      NoneInside(root, st, t, s[..j]);
    }
    JudgedSkip(root, s, n, b, n');
  }

  /** The verdict with the node's own rule, which comes before all longer ones. */
  lemma JudgedNode(root: Node, st: Stack, t: Node, s: Key, b: Ptr)
    requires Good(root, false) && Chain(root, st, t) && StackOk(st) && Path(st) <= s
    requires Judged(root, s, |Path(st)| + 1, b)
    ensures t.val == Some(WHITELISTED) ==> Decides(MapOf(root), s, WHITELISTED)
    ensures t.val != Some(WHITELISTED) ==>
              Judged(root, s, |Path(st)|, match t.val case Some(v) => v case None => b)
  {
    hide Good, Chain, StackOk, Path, Lookup, MapOf, Decides, Judged;
    KeyAt(root, st, t);
    var n := |Path(st)|;
    assert s[..n] == Path(st);
    match t.val {
      case None => JudgedSkip(root, s, n + 1, b, n);
      case Some(v) =>
        if v == WHITELISTED {
          WhiteDecides(root, s, n);
        } else {
          JudgedRule(root, s, n, b, v);
        }
    }
  }

  lemma JudgedFromStop(root: Node, st: Stack, h: Node, s: Key, i: nat, sp: nat)
    requires Good(root, false) && Chain(root, st, h) && Stopped(st, h, s, i, sp)
    ensures StackOk(st) && Path(st) <= s && Judged(root, s, |Path(st)| + 1, UNLISTED)
  {
    StoppedRest(h, st, s, i, sp);
    JudgedStart(root, s);
    forall j | |Path(st)| + 1 <= j < |s| + 1 && j <= |s| ensures At(root, s, j).None? {
      NoneBeyond(root, st, h, s, i, sp, s[..j]);
    }
    JudgedSkip(root, s, |s| + 1, UNLISTED, |Path(st)| + 1);
  }

  /** Back up from the node where the walk stopped. */
  method JudgeUpwards(rax: Rax, h0: RaxNode, ts0: seq<RaxNode>, needle: Key, ghost p0: Pos, ghost key0: Key)
    returns (blacklisted: Ptr)
    requires Standing(rax, p0, h0, ts0, key0) && Good(rax.tree, false) && key0 <= needle
    requires Judged(rax.tree, needle, |key0| + 1, UNLISTED)
    ensures Decides(MapOf(rax.tree), needle, blacklisted)
  {
    hide *;
    var h, ts := h0, ts0;
    ghost var p, key := p0, key0;
    blacklisted := UNLISTED;
    while true
      invariant Standing(rax, p, h, ts, key) && key <= needle && Judged(rax.tree, needle, |key| + 1, blacklisted)
      decreases |ts|
    {
      StandNode(rax, p, h, ts, key);
      StandPath(rax, p, h, ts, key);
      StandShows(h, p.t);
      JudgedNode(rax.tree, p.st, p.t, needle, blacklisted);
      if h.val.Some? {
        blacklisted := h.val.value;
        if blacklisted == WHITELISTED { return; }
      }
      if ts == [] {
        StackNil(p.st);
        JudgedDecides(rax.tree, needle, blacklisted);
        return;
      }
      JudgedUp(rax.tree, p.st, p.t, needle, blacklisted);
      ghost var f, parent, k := StandAscend(rax, p, h, ts, key);
      StandNode(rax, Up(p), parent, ts[..|ts| - 1], k);
      UpStack(p);
      h, ts, p, key := ts[|ts| - 1], ts[..|ts| - 1], Up(p), k;
    }
  }

  lemma StandShows(n: RaxNode, t: Node)
    requires Shows(n, t)
    ensures n.val == t.val
  {
  }

  lemma StackNil(st: Stack)
    requires st == []
    ensures StackOk(st) && Path(st) == []
  {
  }

  lemma UpStack(p: Pos)
    requires p.ss != [] && p.st != [] && FrameIn(Top(p.st)) && p.ss[|p.ss| - 1].idx < |p.ss[|p.ss| - 1].shape.kids|
    ensures Up(p).st == Init(p.st)
  {
  }

  /** rb_rg_blacklisted_string_p: decided by the rules that are prefixes of the needle. When the
      walk does not leave the root the answer is unlisted, even if the empty rule is stored. */
  method BlacklistedString(rax: Rax, needle: Key) returns (blacklisted: Ptr)
    requires rax.Valid()
    ensures Good(rax.tree, false)
    ensures if Reached(MapOf(rax.tree), needle) then Decides(MapOf(rax.tree), needle, blacklisted)
            else blacklisted == UNLISTED
  {
    hide Good, Stopped, Reached, Decides, Judged, MapOf, Chain, Path, Standing, StackOk;
    hide rax.Linked;
    var i, h, parent, idx, splitpos, ts;
    ghost var p;
    i, h, parent, idx, splitpos, ts, p := rax.LowWalk(needle);
    WalkLongest(rax.tree, p.st, p.t, needle, i, splitpos);
    if i == 0 {
      blacklisted := UNLISTED;
    } else {
      JudgedFromStop(rax.tree, p.st, p.t, needle, i, splitpos);
      WalkStands(rax, p, h, parent, idx, ts);
      blacklisted := JudgeUpwards(rax, h, ts, needle, p, Path(p.st));
    }
  }

  /** The answer of the walk is the verdict of the rules exactly when the walk leaves the root
      or there is no empty rule that says something. */
  lemma EmptyRule(m: map<Key, Ptr>, s: Key, v: Ptr)
    requires if Reached(m, s) then Decides(m, s, v) else v == UNLISTED
    ensures Decides(m, s, v) <==> Reached(m, s) || [] !in m || m[[]] == UNLISTED
  {
    if !Reached(m, s) {
      forall k | Applies(m, s, k) ensures k == [] {
      }
      if [] in m {
        assert Applies(m, s, []);
      }
    }
  }

  /** A single empty rule that blacklists everything is not seen for a string without a rule of
      its own. */
  lemma EmptyRuleMissed()
    ensures var m: map<Key, Ptr> := map[[] := BLACKLISTED]; !Reached(m, [65]) && !Decides(m, [65], UNLISTED)
  {
    var m: map<Key, Ptr> := map[[] := BLACKLISTED];
    EmptyRule(m, [65], UNLISTED);
  }
}
