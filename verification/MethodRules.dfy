/** Whether a method is blacklisted: exact rules first, then a scan of the path rules that end in
    "::" or "#", then the prefix rules. Two gaps of the scan are made exact. */
module MethodRules {
  import opened Wrappers
  import opened Bytes
  import opened RaxTree
  import opened RaxOrder
  import opened RaxRank
  import opened RaxCanonical
  import opened Rax
  import opened RaxIterator
  import opened MethodFilter

  const COLON: Byte := 58
  const HASH: Byte := 35

  // ---------------------------------------------------------------- strings of C

  /** A string is followed by a NUL. */
  function CharAt(s: Key, i: nat): Byte {
    if i < |s| then s[i] else 0
  }

  /** strncmp from position i on, for at most n characters in all. */
  function Strncmp(a: Key, b: Key, i: nat, n: nat): int
    decreases n - i
  {
    if i >= n then 0
    else if CharAt(a, i) != CharAt(b, i) then CharAt(a, i) as int - CharAt(b, i) as int
    else if CharAt(a, i) == 0 then 0
    else Strncmp(a, b, i + 1, n)
  }

  /** One byte; the NUL behind s differs from every byte of k. */
  lemma StrncmpStep(s: Key, k: Key, i: nat)
    requires 0 !in k && i < |k|
    ensures if i < |s| && s[i] == k[i] then Strncmp(s, k, i, |k|) == Strncmp(s, k, i + 1, |k|)
            else Strncmp(s, k, i, |k|) != 0
  {
    assert k[i] in k;
    assert k[i] != 0;
  }

  predicate SameAt(s: Key, k: Key, j: nat)
    requires j < |k|
  {
    j < |s| && s[j] == k[j]
  }

  lemma {:induction false} StrncmpFrom(s: Key, k: Key, i: nat)
    requires 0 !in k && i <= |k|
    ensures Strncmp(s, k, i, |k|) == 0 <==> forall j | i <= j < |k| :: SameAt(s, k, j)
    decreases |k| - i
  {
    if i < |k| {
      StrncmpStep(s, k, i);
      StrncmpFrom(s, k, i + 1);
      hide Strncmp;
      assert SameAt(s, k, i) <==> i < |s| && s[i] == k[i];
    }
  }

  /** A string without NULs compares equal over its own length exactly to its extensions. */
  lemma StrncmpPrefix(s: Key, k: Key)
    requires 0 !in k
    ensures Strncmp(s, k, 0, |k|) == 0 <==> k <= s
  {
    StrncmpFrom(s, k, 0);
    if forall j | 0 <= j < |k| :: SameAt(s, k, j) {
      assert k != [] ==> SameAt(s, k, |k| - 1);
      assert forall j | 0 <= j < |k| :: SameAt(s, k, j) && s[j] == k[j];
      assert s[..|k|] == k;
    } else {
      var j :| 0 <= j < |k| && !SameAt(s, k, j);
    }
  }

  lemma StrncmpFirst(a: Byte, path: Key)
    ensures Strncmp([a], path, 0, 1) > 0 <==> a > CharAt(path, 0)
  {
  }

  predicate Ends(k: Key) {
    |k| > 2 && (k[|k| - 2..] == [COLON, COLON] || k[|k| - 1] == HASH)
  }

  /** The last byte is a '#', or the last two are "::", of at least three. */
  lemma EndsMeans(k: Key)
    ensures Ends(k) <==>
            |k| >= 3 && (k[|k| - 1] == '#' as int as Byte ||
                         (k[|k| - 1] == ':' as int as Byte && k[|k| - 2] == ':' as int as Byte))
  {
    if |k| > 2 { assert k[|k| - 2..] == [k[|k| - 2], k[|k| - 1]]; }
  }

  /** A rule that ends in "::" or "#" and is a prefix of the fully qualified name. */
  predicate Marks(k: Key, full: Key) {
    Ends(k) && k <= full
  }

  /** The first byte at a key; of an empty key it is whatever the buffer of the iterator holds. */
  function Head(k: Key, unset: Byte): Byte {
    if k == [] then unset else k[0]
  }

  /** The scan gives up at keys whose first byte is greater than that of the path. */
  predicate Stops(k: Key, path: Key, unset: Byte) {
    Head(k, unset) > CharAt(path, 0)
  }

  // ---------------------------------------------------------------- the scan

  /** The first marked entry from k on, before the scan gives up. */
  function ScanFrom(es: Listing, k: nat, full: Key, path: Key, unset: Byte): (j: Option<nat>)
    ensures j.Some? ==> k <= j.value < |es| && Marks(es[j.value].key, full)
    decreases |es| - k
  {
    if k >= |es| || Stops(es[k].key, path, unset) then None
    else if Marks(es[k].key, full) then Some(k)
    else ScanFrom(es, k + 1, full, path, unset)
  }

  /** What the scan reads from the entry it found: the first entry after the seek may carry no
      data. */
  function ScanValue(es: Listing, k: nat, stale: bool, full: Key, path: Key, unset: Byte): Option<Ptr> {
    match ScanFrom(es, k, full, path, unset)
    case None => None
    case Some(j) => Some(if j == k && stale then 0 else es[j].val)
  }

  /** The outcome of the scan from the greatest key that is not greater than the path; without
      such a key there is no scan. */
  ghost predicate Scanned(es: Listing, stale: bool, full: Key, path: Key, unset: Byte, r: Option<Ptr>) {
    if NoneWanted(es, "<=", path) then r == None
    else exists k :: Best(es, "<=", path, k) && r == ScanValue(es, k, stale, full, path, unset)
  }

  /** The iterator is on entry k of a scan that started at k0. */
  ghost predicate Scanning(it: RaxIterator, k0: nat, k: nat, more: bool, stale: bool)
    reads it, it.rt, it.rt.repr
  {
    && Good(it.rt.tree, false) && more == !it.eof && k0 <= k <= |Entries(it.rt.tree)|
    && if more
       then !it.justSeeked && it.On(k) && k < |Entries(it.rt.tree)| && it.key == Entries(it.rt.tree)[k].key &&
            it.data == if k == k0 && stale then 0 else Entries(it.rt.tree)[k].val
       else k == |Entries(it.rt.tree)|
  }

  predicate NulFree(t: Node)
    requires Good(t, false)
  {
    forall i | 0 <= i < |Entries(t)| :: 0 !in Entries(t)[i].key
  }

  lemma SoughtBelow(it: RaxIterator, path: Key, k: nat)
    requires Good(it.rt.tree, false) && it.Sought("<=", path, k, 0)
    ensures if it.eof then NoneWanted(Entries(it.rt.tree), "<=", path)
            else Best(Entries(it.rt.tree), "<=", path, k) && it.On(k) &&
                 it.data == if EndsInsideKey(it.rt.tree, path) then 0 else Entries(it.rt.tree)[k].val
  {
  }

  /** raxSeek "<=" and the first raxNext. */
  method BeginScan(paths: Rax, path: Key) returns (it: RaxIterator, more: bool, ghost k: nat)
    requires paths.Valid()
    ensures fresh(it) && it.rt == paths && Good(paths.tree, false)
    ensures if more then Best(Entries(paths.tree), "<=", path, k) &&
            Scanning(it, k, k, true, EndsInsideKey(paths.tree, path))
            else NoneWanted(Entries(paths.tree), "<=", path)
  {
    hide Standing, Good, Entries, Rank, EndsInsideKey, Best, NoneWanted;
    it := new RaxIterator(paths);
    hide it.Sought, paths.Valid;
    var ok;
    ok, k := it.Seek("<=", path);
    SoughtBelow(it, path, k);
    more := it.Next(k);
    if more {
      it.OnEntry(k);
    }
  }

  method ContinueScan(it: RaxIterator, ghost k0: nat, ghost k: nat, ghost stale: bool) returns (more: bool)
    requires Scanning(it, k0, k, true, stale)
    modifies it
    ensures Scanning(it, k0, k + 1, more, stale)
  {
    hide Good, Entries, it.On;
    more := it.Next(k);
    if more {
      it.OnEntry(k + 1);
    }
  }

  lemma ScanningKey(it: RaxIterator, k0: nat, k: nat, stale: bool)
    requires Scanning(it, k0, k, true, stale) && NulFree(it.rt.tree)
    ensures k0 <= k < |Entries(it.rt.tree)| && it.key == Entries(it.rt.tree)[k].key && 0 !in it.key
    ensures it.data == if k == k0 && stale then 0 else Entries(it.rt.tree)[k].val
  {
    hide Entries;
  }

  lemma ScanningOver(it: RaxIterator, k0: nat, k: nat, stale: bool)
    requires Scanning(it, k0, k, false, stale)
    ensures k == |Entries(it.rt.tree)|
  {
  }

  /** The two tests of the loop find the marked rules. */
  lemma MarkTest(k: Key, full: Key)
    requires 0 !in k
    ensures Marks(k, full) <==> |k| > 2 && (k[|k| - 2..] == [COLON, COLON] || k[|k| - 1] == HASH) &&
                                Strncmp(full, k, 0, |k|) == 0
  {
    StrncmpPrefix(full, k);
  }

  /** The loop over the path rules. */
  method ScanPaths(paths: Rax, full: Key, path: Key, unset: Byte) returns (r: Option<Ptr>)
    requires paths.Valid()
    requires Good(paths.tree, false) && NulFree(paths.tree)
    ensures Scanned(Entries(paths.tree), EndsInsideKey(paths.tree, path), full, path, unset, r)
  {
    hide *;
    ghost var es, stale := Entries(paths.tree), EndsInsideKey(paths.tree, path);
    var it, more;
    ghost var k0: nat;
    it, more, k0 := BeginScan(paths, path);
    r := None;
    if !more {
      ScanNone(es, stale, full, path, unset);
      return;
    }
    ghost var k := k0;
    while more
      invariant it.rt == paths && Scanning(it, k0, k, more, stale) && r == None
      invariant ScanFrom(es, k0, full, path, unset) == ScanFrom(es, k, full, path, unset)
      decreases |es| - k
    {
      ScanningKey(it, k0, k, stale);
      ScanHere(es, k, full, path, unset);
      StrncmpFirst(Head(it.key, unset), path);
      MarkTest(it.key, full);
      if Strncmp([Head(it.key, unset)], path, 0, 1) > 0 { break; }
      if |it.key| > 2 {
        if it.key[|it.key| - 2..] == [COLON, COLON] && Strncmp(full, it.key, 0, |it.key|) == 0 {
          r := Some(it.data);
          break;
        }
        if it.key[|it.key| - 1] == HASH && Strncmp(full, it.key, 0, |it.key|) == 0 {
          r := Some(it.data);
          break;
        }
      }
      more := ContinueScan(it, k0, k, stale);
      k := k + 1;
    }
    if !more {
      ScanningOver(it, k0, k, stale);
      ScanEnd(es, full, path, unset);
    }
    ScanDone(es, k0, stale, full, path, unset, r);
  }

  lemma ScanHere(es: Listing, k: nat, full: Key, path: Key, unset: Byte)
    requires k < |es|
    ensures ScanFrom(es, k, full, path, unset) ==
            if Head(es[k].key, unset) > CharAt(path, 0) then None
            else if Marks(es[k].key, full) then Some(k)
            else ScanFrom(es, k + 1, full, path, unset)
  {
  }

  lemma ScanEnd(es: Listing, full: Key, path: Key, unset: Byte)
    ensures ScanFrom(es, |es|, full, path, unset) == None
  {
  }

  lemma ScanNone(es: Listing, stale: bool, full: Key, path: Key, unset: Byte)
    requires NoneWanted(es, "<=", path)
    ensures Scanned(es, stale, full, path, unset, None)
  {
  }

  lemma ScanDone(es: Listing, k: nat, stale: bool, full: Key, path: Key, unset: Byte, r: Option<Ptr>)
    requires Best(es, "<=", path, k)
    requires match ScanFrom(es, k, full, path, unset)
             case None => r == None
             case Some(j) => r == Some(if j == k && stale then 0 else es[j].val)
    ensures Scanned(es, stale, full, path, unset, r)
  {
  }

  // ---------------------------------------------------------------- what the scan means

  predicate NotAbove(k: Key, path: Key) {
    !Less(path, k)
  }

  /** The greatest rule that is not greater than the path. */
  ghost predicate Nearest(m: map<Key, Ptr>, path: Key, k: Key) {
    k in m && NotAbove(k, path) && forall l | l in m && NotAbove(l, path) :: NotAbove(l, k)
  }

  /** The first byte is not greater than that of the path. */
  predicate Within(path: Key, k: Key) {
    k != [] && k[0] <= CharAt(path, 0)
  }

  /** The rules the scan can find: marked ones behind the path, and the nearest one before it. */
  ghost predicate Eligible(m: map<Key, Ptr>, path: Key, full: Key, k: Key) {
    k in m && Marks(k, full) && Within(path, k) && (Less(path, k) || Nearest(m, path, k))
  }

  /** Giving up early loses nothing when the full name starts with the path: a marked rule then
      starts with the same byte. */
  lemma GivingUpHarmless(path: Key, full: Key, k: Key)
    requires path != [] && path <= full && Marks(k, full)
    ensures Within(path, k)
  {
    assert k[0] == full[0] == path[0];
  }

  /** There is no rule to start the scan from, or the scan gives up at once: it starts from the
      empty rule, at which it looks at a byte that was never set. */
  ghost predicate Blind(m: map<Key, Ptr>, path: Key, unset: Byte) {
    (forall k | k in m :: Less(path, k)) || (Nearest(m, path, []) && unset > CharAt(path, 0))
  }

  /** The shortest eligible rule, unless the scan is blind. */
  ghost predicate Trailing(m: map<Key, Ptr>, path: Key, full: Key, unset: Byte, r: Option<Key>) {
    match r
    case None => Blind(m, path, unset) || forall k | k in m :: !Eligible(m, path, full, k)
    case Some(k) =>
      !Blind(m, path, unset) && Eligible(m, path, full, k) && forall l | Eligible(m, path, full, l) :: |k| <= |l|
  }

  lemma {:induction false} ScanFinds(es: Listing, k: nat, full: Key, path: Key, unset: Byte, j: nat)
    requires k <= j < |es| && Marks(es[j].key, full)
    requires forall x | k <= x < j :: !Marks(es[x].key, full)
    requires forall x | k <= x <= j :: !Stops(es[x].key, path, unset)
    ensures ScanFrom(es, k, full, path, unset) == Some(j)
    decreases j - k
  {
    if k < j { ScanFinds(es, k + 1, full, path, unset, j); }
  }

  lemma {:induction false} ScanMisses(es: Listing, k: nat, full: Key, path: Key, unset: Byte)
    requires forall x | k <= x < |es| && Marks(es[x].key, full) :: Stops(es[x].key, path, unset)
    ensures ScanFrom(es, k, full, path, unset) == None
    decreases |es| - k
  {
    if k < |es| { ScanMisses(es, k + 1, full, path, unset); }
  }

  /** The least index from k on of a marked entry, if there is one. */
  lemma {:induction false} FirstMarked(es: Listing, k: nat, full: Key, i: nat) returns (j: nat)
    requires k <= i < |es| && Marks(es[i].key, full)
    ensures k <= j <= i && Marks(es[j].key, full) && forall x | k <= x < j :: !Marks(es[x].key, full)
    decreases i - k
  {
    if Marks(es[k].key, full) {
      j := k;
    } else {
      j := FirstMarked(es, k + 1, full, i);
    }
  }

  /** Entries on the way to a marked one start with no greater byte. */
  lemma NoStopBefore(es: Listing, k: nat, full: Key, path: Key, unset: Byte, j: nat)
    requires Ascending(es) && k <= j < |es| && Marks(es[j].key, full) && Within(path, es[j].key)
    requires es[k].key == [] ==> unset <= CharAt(path, 0)
    ensures forall x | k <= x <= j :: !Stops(es[x].key, path, unset)
  {
    forall x | k <= x <= j ensures !Stops(es[x].key, path, unset) {
      assert x == j || Less(es[x].key, es[j].key);
      assert x == k || Less(es[k].key, es[x].key);
    }
  }

  /** When the first marked entry starts with a greater byte, so do all later ones. */
  lemma AllStop(es: Listing, full: Key, path: Key, unset: Byte, j: nat)
    requires Ascending(es) && j < |es| && Marks(es[j].key, full) && !Within(path, es[j].key)
    ensures forall x | j <= x < |es| && Marks(es[x].key, full) ::
              Stops(es[x].key, path, unset) && !Within(path, es[x].key)
  {
    forall x | j <= x < |es| && Marks(es[x].key, full)
      ensures Stops(es[x].key, path, unset) && !Within(path, es[x].key) {
      assert x == j || Less(es[j].key, es[x].key);
    }
  }

  lemma EntryOf(t: Node, i: nat)
    requires Good(t, false) && i < |Entries(t)|
    ensures var e := Entries(t)[i]; e.key in MapOf(t) && MapOf(t)[e.key] == e.val
  {
    EntryIffLookup(t, Entries(t)[i]);
    MapLookup(t, Entries(t)[i].key);
  }

  lemma IndexOfKey(t: Node, k: Key) returns (i: nat)
    requires Good(t, false) && k in MapOf(t)
    ensures i < |Entries(t)| && Entries(t)[i].key == k
  {
    MapLookup(t, k);
    var e := Entry(k, MapOf(t)[k]);
    EntryIffLookup(t, e);
    i :| 0 <= i < |Entries(t)| && Entries(t)[i] == e;
  }

  lemma WantedBelow(k: Key, path: Key)
    ensures Wanted("<=", path, k) <==> NotAbove(k, path)
  {
    LessTotal(k, path);
  }

  lemma NearestEntry(t: Node, path: Key, k: nat)
    requires Good(t, false) && Best(Entries(t), "<=", path, k)
    ensures Nearest(MapOf(t), path, Entries(t)[k].key)
  {
    hide Entries, Wanted, Good;
    var es := Entries(t);
    EntryOf(t, k);
    WantedBelow(es[k].key, path);
    EntriesAscending(t);
    forall l | l in MapOf(t) && NotAbove(l, path) ensures NotAbove(l, es[k].key) {
      var i := IndexOfKey(t, l);
      WantedBelow(l, path);
      assert i <= k;
      LessTotal(l, es[k].key);
    }
  }

  /** Seen from the nearest rule, the eligible rules are the marked ones from there on. */
  lemma EligibleEntry(t: Node, path: Key, full: Key, k: nat, i: nat)
    requires Good(t, false) && Best(Entries(t), "<=", path, k) && i < |Entries(t)|
    ensures Eligible(MapOf(t), path, full, Entries(t)[i].key) <==>
            Marks(Entries(t)[i].key, full) && Within(path, Entries(t)[i].key) && i >= k
  {
    hide Entries, Wanted, Good, Marks, Less, Within;
    var es := Entries(t);
    EntryOf(t, i);
    EntryOf(t, k);
    EntriesAscending(t);
    NearestEntry(t, path, k);
    WantedBelow(es[i].key, path);
    WantedBelow(es[k].key, path);
    if i < k {
      assert Less(es[i].key, es[k].key);
      if Less(path, es[i].key) { LessTransitive(path, es[i].key, es[k].key); }
    }
  }

  lemma PrefixesOrdered(a: Key, b: Key, f: Key)
    requires a <= f && b <= f && Less(a, b)
    ensures |a| < |b|
  {
    if |b| <= |a| {
      assert a == b + a[|b|..];
      LessExtend(b, a[|b|..]);
      LessTotal(a, b);
    }
  }

  /** The scan finds the shortest eligible rule. The data it reads there is that of the rule,
      except that the rule before the path may come without. */
  lemma ScanMeans(t: Node, stale: bool, full: Key, path: Key, unset: Byte, r: Option<Ptr>) returns (k: Option<Key>)
    requires Good(t, false) && Scanned(Entries(t), stale, full, path, unset, r) && path !in MapOf(t)
    ensures Trailing(MapOf(t), path, full, unset, k)
    ensures r == match k case None => None case Some(x) => Some(if stale && !Less(path, x) then 0 else MapOf(t)[x])
  {
    hide Entries, Wanted, Good, Marks, ScanFrom;
    var es, m := Entries(t), MapOf(t);
    if NoneWanted(es, "<=", path) {
      k := None;
      forall x | x in m ensures Less(path, x) {
        var i := IndexOfKey(t, x);
        WantedBelow(x, path);
      }
    } else {
      var k0: nat :| Best(es, "<=", path, k0) && r == ScanValue(es, k0, stale, full, path, unset);
      NearestEntry(t, path, k0);
      NearestUnique(t, path, k0);
      if path == [] {
        NothingBelowEmpty(es[k0].key);
      } else if es[k0].key == [] && unset > path[0] {
        k := None;
        ScanHere(es, k0, full, path, unset);
      } else {
        k := ScanMeansFrom(t, stale, full, path, unset, k0);
      }
    }
  }

  lemma NothingBelowEmpty(k: Key)
    ensures NotAbove(k, []) <==> k == []
  {
  }

  /** Only one rule is nearest. */
  lemma NearestUnique(t: Node, path: Key, k: nat)
    requires Good(t, false) && Best(Entries(t), "<=", path, k)
    ensures forall l | Nearest(MapOf(t), path, l) :: l == Entries(t)[k].key
  {
    NearestEntry(t, path, k);
    forall l | Nearest(MapOf(t), path, l) ensures l == Entries(t)[k].key {
      LessTotal(l, Entries(t)[k].key);
    }
  }

  lemma ScanMeansFrom(t: Node, stale: bool, full: Key, path: Key, unset: Byte, k0: nat) returns (k: Option<Key>)
    requires Good(t, false) && Best(Entries(t), "<=", path, k0) && path != []
    requires Entries(t)[k0].key == [] ==> unset <= path[0]
    ensures Trailing(MapOf(t), path, full, unset, k)
    ensures ScanValue(Entries(t), k0, stale, full, path, unset) ==
            match k case None => None case Some(x) => Some(if stale && !Less(path, x) then 0 else MapOf(t)[x])
  {
    hide Entries, Wanted, Good, Marks, Stops, ScanFrom, Eligible, Less, Nearest, Blind, Within;
    var es, m := Entries(t), MapOf(t);
    EntriesAscending(t);
    if i: nat :| k0 <= i < |es| && Marks(es[i].key, full) {
      var j := FirstMarked(es, k0, full, i);
      if Within(path, es[j].key) {
        k := Some(es[j].key);
        NotBlind(t, path, unset, k0);
        NoStopBefore(es, k0, full, path, unset, j);
        ScanFinds(es, k0, full, path, unset, j);
        EntryOf(t, j);
        EligibleEntry(t, path, full, k0, j);
        Beyond(t, path, k0, j);
        forall l | Eligible(m, path, full, l) ensures |es[j].key| <= |l| {
          ShortestMarked(t, path, full, k0, j, l);
        }
        return;
      }
      AllStop(es, full, path, unset, j);
    }
    k := None;
    ScanMisses(es, k0, full, path, unset);
    forall x | x in m ensures !Eligible(m, path, full, x) {
      var i := IndexOfKey(t, x);
      EligibleEntry(t, path, full, k0, i);
    }
  }

  lemma NotBlind(t: Node, path: Key, unset: Byte, k: nat)
    requires Good(t, false) && Best(Entries(t), "<=", path, k) && path != []
    requires Entries(t)[k].key == [] ==> unset <= path[0]
    ensures !Blind(MapOf(t), path, unset)
  {
    hide Entries, Wanted, Good;
    NearestEntry(t, path, k);
    NearestUnique(t, path, k);
  }

  /** Exactly the entries after the nearest one are greater than the path. */
  lemma Beyond(t: Node, path: Key, k: nat, j: nat)
    requires Good(t, false) && Best(Entries(t), "<=", path, k) && k <= j < |Entries(t)|
    ensures Less(path, Entries(t)[j].key) <==> j > k
    ensures Entries(t)[k].key in MapOf(t) && NotAbove(Entries(t)[k].key, path)
  {
    hide Entries, Wanted, Good;
    EntryOf(t, k);
    WantedBelow(Entries(t)[j].key, path);
    WantedBelow(Entries(t)[k].key, path);
  }

  lemma ShortestMarked(t: Node, path: Key, full: Key, k: nat, j: nat, l: Key)
    requires Good(t, false) && Best(Entries(t), "<=", path, k) && k <= j < |Entries(t)|
    requires Marks(Entries(t)[j].key, full) && forall x | k <= x < j :: !Marks(Entries(t)[x].key, full)
    requires Eligible(MapOf(t), path, full, l)
    ensures |Entries(t)[j].key| <= |l|
  {
    hide Entries, Wanted, Good, Nearest, Less;
    var es := Entries(t);
    var i := IndexOfKey(t, l);
    EligibleEntry(t, path, full, k, i);
    EntriesAscending(t);
    if j < i {
      PrefixesOrdered(es[j].key, l, full);
    }
  }

  // ---------------------------------------------------------------- the verdict on a method

  /** What rb_rg_blacklisted_string_p says. */
  ghost predicate PrefixVerdict(m: map<Key, Ptr>, s: Key, v: Ptr) {
    if Reached(m, s) then Decides(m, s, v) else v == UNLISTED
  }

  /** The data of the rule that the scan found. */
  ghost predicate TrailingData(m: map<Key, Ptr>, stale: bool, path: Key, k: Key, v: Ptr) {
    k in m && v == if stale && !Less(path, k) then UNLISTED else m[k]
  }

  /** The path rules have no exact rule: a marked rule decides, then the prefixes of the path, then
      those of the name. */
  ghost predicate Inexact(mp: map<Key, Ptr>, mm: map<Key, Ptr>, stale: bool, full: Key, path: Key, name: Key,
                          unset: Byte, v: Ptr) {
    exists k ::
      Trailing(mp, path, full, unset, k) &&
      match k
      case Some(x) => TrailingData(mp, stale, path, x, v)
      case None =>
        (PrefixVerdict(mp, path, v) && v != UNLISTED) ||
        (PrefixVerdict(mp, path, UNLISTED) && PrefixVerdict(mm, name, v))
  }

  ghost predicate Verdict(mf: map<Key, Ptr>, mp: map<Key, Ptr>, mm: map<Key, Ptr>, stale: bool,
                          full: Key, path: Key, name: Key, unset: Byte, v: Ptr) {
    if full in mf then v == mf[full]
    else if path in mp then v == mp[path]
    else if name in mm then v == mm[name]
    else Inexact(mp, mm, stale, full, path, name, unset, v)
  }

  /** No rule has the exact name and none is found by the scan. */
  ghost predicate Unmatched(mf: map<Key, Ptr>, mp: map<Key, Ptr>, mm: map<Key, Ptr>, full: Key, path: Key, name: Key) {
    full !in mf && path !in mp && name !in mm && forall k | k in mp && Ends(k) :: !(k <= full)
  }

  /** Some rule that is not empty is a prefix of s and has the value. */
  ghost predicate Starts(m: map<Key, Ptr>, s: Key, v: Ptr) {
    exists k :: k in m && k != [] && k <= s && m[k] == v
  }

  /** A whitelisting prefix of the path decides, then a blacklisting one, whatever the method rules
      say; after them those of the name, in the same order. The values are 1, 2 and, when the rules
      start like neither, 0. */
  ghost predicate PathBeforeName(mp: map<Key, Ptr>, mm: map<Key, Ptr>, path: Key, name: Key, v: Ptr) {
    if !TwoValued(mp) || !TwoValued(mm) || [] in mp || [] in mm then true
    else if Starts(mp, path, 1) then v == 1
    else if Starts(mp, path, 2) then v == 2
    else if Starts(mm, name, 1) then v == 1
    else if Starts(mm, name, 2) then v == 2
    else v == 0
  }

  ghost predicate TwoValued(m: map<Key, Ptr>) {
    forall k | k in m :: m[k] == 1 || m[k] == 2
  }

  /** rb_rg_blacklisted_method_p. unset is the byte the iterator's buffer holds when its key is
      empty. */
  method BlacklistedMethod(exact: Rax, paths: Rax, methods: Rax, full: Key, path: Key, name: Key, unset: Byte)
    returns (blacklisted: Ptr)
    requires exact.Valid() && paths.Valid() && methods.Valid()
    requires Good(paths.tree, false) && NulFree(paths.tree)
    ensures Verdict(exact.Contents(), paths.Contents(), methods.Contents(), EndsInsideKey(paths.tree, path),
                    full, path, name, unset, blacklisted)
    ensures full in exact.Contents() ==> blacklisted == exact.Contents()[full]
    ensures full !in exact.Contents() && path in paths.Contents() ==> blacklisted == paths.Contents()[path]
    ensures full !in exact.Contents() && path !in paths.Contents() && name in methods.Contents() ==>
              blacklisted == methods.Contents()[name]
    ensures Unmatched(exact.Contents(), paths.Contents(), methods.Contents(), full, path, name) ==>
              PathBeforeName(paths.Contents(), methods.Contents(), path, name, blacklisted)
  {
    hide Good, EndsInsideKey, Scanned, NulFree, Decides, Reached, Entries, MapOf, Trailing, Inexact;
    hide Rax.Linked;
    ghost var stale := EndsInsideKey(paths.tree, path);
    var found := exact.Find(full);
    if found.None? { found := paths.Find(path); }
    if found.None? { found := methods.Find(name); }
    if found.Some? {
      blacklisted := found.value;
    } else {
      blacklisted := JudgeInexact(paths, methods, full, path, name, unset);
      ghost var mf, mp, mm := exact.Contents(), paths.Contents(), methods.Contents();
      if Unmatched(mf, mp, mm, full, path, name) {
        FallsThrough(mf, mp, mm, stale, full, path, name, unset, blacklisted);
      }
    }
  }

  /** No rule has the exact name: the scan, the prefixes of the path, those of the name. */
  method JudgeInexact(paths: Rax, methods: Rax, full: Key, path: Key, name: Key, unset: Byte)
    returns (blacklisted: Ptr)
    requires paths.Valid() && methods.Valid() && Good(paths.tree, false) && NulFree(paths.tree)
    requires path !in paths.Contents()
    ensures Inexact(paths.Contents(), methods.Contents(), EndsInsideKey(paths.tree, path), full, path, name, unset,
                    blacklisted)
  {
    hide Good, EndsInsideKey, Scanned, NulFree, Decides, Reached, Entries, MapOf, Trailing, Inexact;
    hide Rax.Linked;
    ghost var stale := EndsInsideKey(paths.tree, path);
    var found := ScanPaths(paths, full, path, unset);
    ghost var k := ScanMeans(paths.tree, stale, full, path, unset, found);
    if found.Some? {
      blacklisted := found.value;
      InexactTrailing(paths.Contents(), methods.Contents(), stale, full, path, name, unset, k.value, blacklisted);
      return;
    }
    blacklisted := BlacklistedString(paths, path);
    if blacklisted != UNLISTED {
      InexactPath(paths.Contents(), methods.Contents(), stale, full, path, name, unset, blacklisted);
      return;
    }
    blacklisted := BlacklistedString(methods, name);
    InexactName(paths.Contents(), methods.Contents(), stale, full, path, name, unset, blacklisted);
  }

  lemma InexactTrailing(mp: map<Key, Ptr>, mm: map<Key, Ptr>, stale: bool, full: Key, path: Key, name: Key,
                        unset: Byte, k: Key, v: Ptr)
    requires Trailing(mp, path, full, unset, Some(k)) && v == if stale && !Less(path, k) then UNLISTED else mp[k]
    ensures Inexact(mp, mm, stale, full, path, name, unset, v)
  {
    assert TrailingData(mp, stale, path, k, v);
  }

  lemma InexactPath(mp: map<Key, Ptr>, mm: map<Key, Ptr>, stale: bool, full: Key, path: Key, name: Key, unset: Byte,
                    v: Ptr)
    requires Trailing(mp, path, full, unset, None) && PrefixVerdict(mp, path, v) && v != UNLISTED
    ensures Inexact(mp, mm, stale, full, path, name, unset, v)
  {
  }

  lemma InexactName(mp: map<Key, Ptr>, mm: map<Key, Ptr>, stale: bool, full: Key, path: Key, name: Key, unset: Byte,
                    v: Ptr)
    requires Trailing(mp, path, full, unset, None) && PrefixVerdict(mp, path, UNLISTED) && PrefixVerdict(mm, name, v)
    ensures Inexact(mp, mm, stale, full, path, name, unset, v)
  {
  }

  // ---------------------------------------------------------------- when the data is missing

  /** Some rule is a proper prefix of the path, and all rules that extend it go on like the path
      and then with one and the same byte. */
  ghost predicate Shadowed(m: map<Key, Ptr>, path: Key) {
    exists k, c :: Shadows(m, path, k, c)
  }

  ghost predicate Shadows(m: map<Key, Ptr>, path: Key, k: Key, c: Byte) {
    && k in m && Extends(path, k)
    && (exists l :: l in m && GoesOn(l, path, c))
    && forall l | l in m && Extends(l, k) :: GoesOn(l, path, c)
  }

  predicate Extends(l: Key, k: Key) {
    k < l
  }

  predicate GoesOn(l: Key, path: Key, c: Byte) {
    path + [c] <= l
  }

  /** The same in terms of the tree. */
  ghost predicate Leads(n: Node, path: Key, k: Key, c: Byte)
    requires Good(n, false)
  {
    && Lookup(n, k).Some? && Extends(path, k)
    && (exists l :: Lookup(n, l).Some? && GoesOn(l, path, c))
    && forall l | Lookup(n, l).Some? && Extends(l, k) :: GoesOn(l, path, c)
  }

  lemma LeadsShadows(t: Node, path: Key, k: Key, c: Byte)
    requires Good(t, false)
    ensures Leads(t, path, k, c) <==> Shadows(MapOf(t), path, k, c)
  {
    forall l ensures l in MapOf(t) <==> Lookup(t, l).Some? { MapLookup(t, l); }
  }

  /** In any tree, a path that ends inside the string of a key node is shadowed by that key. */
  lemma {:induction false} InsideLeads(n: Node, path: Key) returns (k: Key, c: Byte)
    requires Good(n, false) && EndsInsideKey(n, path)
    ensures Leads(n, path, k, c)
    decreases n
  {
    var i := Edge(n, path);
    if i < |n.kids| {
      var l := Label(n, i);
      var k', c' := InsideLeads(n.kids[i], path[|l|..]);
      k, c := l + k', c';
      LeadsUp(n, i, path[|l|..], k', c');
      assert l + path[|l|..] == path;
    } else {
      k, c := [], n.chars[|path|];
      LeadsHere(n, path);
    }
  }

  lemma LeadsHere(n: Node, path: Key)
    requires Good(n, false) && n.compr && n.val.Some? && path != [] && path < n.chars
    ensures Leads(n, path, [], n.chars[|path|])
  {
    var c := n.chars[|path|];
    assert path + [c] <= n.chars;
    var l := KeyBelow(n, 0);
    assert Label(n, 0) == n.chars;
    assert Lookup(n, l).Some? && GoesOn(l, path, c);
    forall x | Lookup(n, x).Some? && Extends(x, []) ensures GoesOn(x, path, c) {
      var i := EdgeForKey(n, x);
      assert n.chars <= x;
    }
  }

  lemma LeadsUp(n: Node, i: nat, path: Key, k: Key, c: Byte)
    requires Good(n, false) && i < |n.kids| && Leads(n.kids[i], path, k, c)
    ensures Leads(n, Label(n, i) + path, Label(n, i) + k, c)
  {
    var l := Label(n, i);
    assert Good(n.kids[i], false) && Format(n);
    hide Good, Lookup, Label, Format, Extends, GoesOn;
    LookupChild(n, i, k);
    Shifted(l, path, k, c);
    var x :| Lookup(n.kids[i], x).Some? && GoesOn(x, path, c);
    LookupChild(n, i, x);
    ShiftedKey(l, path, k, c, x);
    forall y | Lookup(n, y).Some? && Extends(y, l + k) ensures GoesOn(y, l + path, c) {
      var z := Unshifted(l, k, y);
      LookupChild(n, i, z);
      ShiftedKey(l, path, k, c, z);
    }
  }

  lemma Shifted(l: Key, path: Key, k: Key, c: Byte)
    ensures Extends(l + path, l + k) <==> Extends(path, k)
  {
    PrefixCancel(l, k, path);
  }

  lemma ShiftedKey(l: Key, path: Key, k: Key, c: Byte, x: Key)
    ensures Extends(l + x, l + k) <==> Extends(x, k)
    ensures GoesOn(l + x, l + path, c) <==> GoesOn(x, path, c)
  {
    PrefixCancel(l, k, x);
    PrefixCancel(l, path + [c], x);
    assert l + path + [c] == l + (path + [c]);
  }

  lemma Unshifted(l: Key, k: Key, y: Key) returns (z: Key)
    requires Extends(y, l + k)
    ensures y == l + z
  {
    z := y[|l|..];
  }

  /** All keys below a node that properly extend the empty one start with p: there is one edge,
      and in a maximally compressed tree its string extends p. */
  lemma OneEdge(n: Node, p: Key)
    requires Good(n, true) && Good(n, false) && p != []
    requires exists l :: Lookup(n, l).Some? && p <= l
    requires forall l | Lookup(n, l).Some? && [] < l :: p <= l
    ensures |n.kids| == 1 && p <= Label(n, 0)
  {
    var l :| Lookup(n, l).Some? && p <= l;
    var i := EdgeForKey(n, l);
    if |n.kids| >= 2 {
      var x, y := TwoKeys(n);
      assert false;
    } else {
      assert Label(n, 0) <= l;
      if |Label(n, 0)| < |p| {
        assert Label(n, 0) < p;
        OneEdgeEnds(n, p);
      } else {
        assert p <= Label(n, 0);
      }
    }
  }

  /** The child behind a shorter edge is a key or branches: it has a key that does not start
      with p. */
  lemma OneEdgeEnds(n: Node, p: Key)
    requires Good(n, true) && Good(n, false) && |n.kids| == 1 && Label(n, 0) < p
    ensures exists l :: Lookup(n, l).Some? && [] < l && !(p <= l)
  {
    var g, e := n.kids[0], Label(n, 0);
    assert Hangs(n, g, true);
    if g.val.Some? {
      LookupChild(n, 0, []);
      assert e + [] == e;
    } else {
      assert |g.kids| >= 2;
      var x, y := TwoKeys(g);
      LookupChild(n, 0, x);
      LookupChild(n, 0, y);
      Forks(e, x, y, p);
    }
  }

  /** Two keys that part behind e do not both start with more than e. */
  lemma Forks(e: Key, x: Key, y: Key, p: Key)
    requires e < p && x != [] && y != [] && x[0] != y[0]
    ensures !(p <= e + x) || !(p <= e + y)
  {
    assert (e + x)[|e|] == x[0] && (e + y)[|e|] == y[0];
  }

  /** In a maximally compressed tree the rules alone tell. */
  lemma {:induction false} LeadsInside(n: Node, path: Key, k: Key, c: Byte)
    requires Good(n, true) && Good(n, false) && Leads(n, path, k, c)
    ensures EndsInsideKey(n, path)
    decreases n
  {
    if k == [] {
      var l :| Lookup(n, l).Some? && GoesOn(l, path, c);
      forall x | Lookup(n, x).Some? && [] < x ensures path + [c] <= x {
        assert Extends(x, []);
      }
      OneEdge(n, path + [c]);
      assert path < Label(n, 0);
      NoEdgeInside(n, path);
    } else {
      var i := EdgeForKey(n, k);
      var l := Label(n, i);
      LeadsDown(n, i, path, k, c);
      assert l <= path;
      LeadsInside(n.kids[i], path[|l|..], k[|l|..], c);
    }
  }

  lemma NoEdgeInside(n: Node, path: Key)
    requires Good(n, false) && |n.kids| == 1 && path != [] && path < Label(n, 0) && n.val.Some?
    ensures EndsInsideKey(n, path)
  {
  }

  lemma LeadsDown(n: Node, i: nat, path: Key, k: Key, c: Byte)
    requires Good(n, false) && i < |n.kids| && Leads(n, path, k, c) && Label(n, i) <= k
    ensures Label(n, i) <= path && Leads(n.kids[i], path[|Label(n, i)|..], k[|Label(n, i)|..], c)
  {
    var l := Label(n, i);
    var p', k' := path[|l|..], k[|l|..];
    assert k == l + k' && path == l + p';
    LeadsBelow(n, i, p', k', c);
  }

  lemma LeadsBelow(n: Node, i: nat, path: Key, k: Key, c: Byte)
    requires Good(n, false) && i < |n.kids| && Leads(n, Label(n, i) + path, Label(n, i) + k, c)
    ensures Leads(n.kids[i], path, k, c)
  {
    var l := Label(n, i);
    assert Good(n.kids[i], false) && Format(n);
    hide Good, Lookup, Label, Format, Extends, GoesOn;
    LookupChild(n, i, k);
    Shifted(l, path, k, c);
    var x :| Lookup(n, x).Some? && GoesOn(x, l + path, c);
    var z := Continues(l, path, c, x);
    LookupChild(n, i, z);
    ShiftedKey(l, path, k, c, z);
    forall y | Lookup(n.kids[i], y).Some? && Extends(y, k) ensures GoesOn(y, path, c) {
      LookupChild(n, i, y);
      ShiftedKey(l, path, k, c, y);
    }
  }

  lemma Continues(l: Key, path: Key, c: Byte, x: Key) returns (z: Key)
    requires GoesOn(x, l + path, c)
    ensures x == l + z
  {
    z := x[|l|..];
    assert l + path + [c] == l + (path + [c]);
  }

  /** Trees built by insertions: the data is missing exactly for shadowed paths. */
  lemma StaleExactly(t: Node, path: Key)
    requires Good(t, true) && Good(t, false)
    ensures EndsInsideKey(t, path) <==> Shadowed(MapOf(t), path)
  {
    if EndsInsideKey(t, path) {
      var k, c := InsideLeads(t, path);
      LeadsShadows(t, path, k, c);
    }
    if Shadowed(MapOf(t), path) {
      var k, c :| Shadows(MapOf(t), path, k, c);
      LeadsShadows(t, path, k, c);
      LeadsInside(t, path, k, c);
    }
  }

  lemma TrailingUnique(m: map<Key, Ptr>, path: Key, full: Key, unset: Byte, j: Option<Key>, k: Option<Key>)
    requires Trailing(m, path, full, unset, j) && Trailing(m, path, full, unset, k)
    ensures j == k
  {
    hide Blind, Nearest, Less;
    if j.Some? && k.Some? {
      assert j.value == full[..|j.value|] && k.value == full[..|k.value|];
    }
  }

  lemma PrefixVerdictUnique(m: map<Key, Ptr>, s: Key, v: Ptr, w: Ptr)
    requires PrefixVerdict(m, s, v) && PrefixVerdict(m, s, w)
    ensures v == w
  {
    if Reached(m, s) { DecidesUnique(m, s, v, w); }
  }

  ghost predicate NoExact(mf: map<Key, Ptr>, mp: map<Key, Ptr>, mm: map<Key, Ptr>, full: Key, path: Key, name: Key) {
    full !in mf && path !in mp && name !in mm
  }

  /** The rule that the scan finds is the one before the path, and its data is missing. */
  ghost predicate LosesRule(mp: map<Key, Ptr>, stale: bool, full: Key, path: Key, unset: Byte) {
    stale && exists k :: Trailing(mp, path, full, unset, Some(k)) && NotAbove(k, path) && mp[k] != UNLISTED
  }

  /** A rule that is a prefix makes the walk leave the root. */
  lemma StartsReached(m: map<Key, Ptr>, s: Key, v: Ptr)
    requires Starts(m, s, v)
    ensures Reached(m, s) && SomeApplies(m, s) && (v == WHITELISTED ==> SomeWhitelists(m, s))
  {
    var k :| k in m && k != [] && k <= s && m[k] == v;
    assert k[0] == s[0] && Applies(m, s, k);
  }

  lemma AppliesStarts(m: map<Key, Ptr>, s: Key, k: Key)
    requires Applies(m, s, k) && [] !in m
    ensures Starts(m, s, m[k])
  {
  }

  lemma PrefixMeans(m: map<Key, Ptr>, s: Key, v: Ptr)
    requires PrefixVerdict(m, s, v) && TwoValued(m) && [] !in m
    ensures v == if Starts(m, s, 1) then 1 else if Starts(m, s, 2) then 2 else 0
  {
    if Starts(m, s, 1) { StartsReached(m, s, 1); }
    if Starts(m, s, 2) { StartsReached(m, s, 2); }
    hide Starts, Reached;
    if SomeWhitelists(m, s) {
      var k :| Applies(m, s, k) && m[k] == WHITELISTED;
      AppliesStarts(m, s, k);
    } else if SomeApplies(m, s) && Reached(m, s) {
      var k :| Applies(m, s, k) && m[k] == v && forall l | Applies(m, s, l) :: |k| <= |l|;
      AppliesStarts(m, s, k);
    }
  }

  lemma FallsThrough(mf: map<Key, Ptr>, mp: map<Key, Ptr>, mm: map<Key, Ptr>, stale: bool, full: Key, path: Key,
                     name: Key, unset: Byte, v: Ptr)
    requires Unmatched(mf, mp, mm, full, path, name) && Inexact(mp, mm, stale, full, path, name, unset, v)
    ensures PathBeforeName(mp, mm, path, name, v)
  {
    var k := TrailingOf(mp, mm, stale, full, path, name, unset, v);
    assert k == None;
    hide PrefixVerdict, Inexact;
    if TwoValued(mp) && TwoValued(mm) && [] !in mp && [] !in mm {
      if PrefixVerdict(mp, path, v) { PrefixMeans(mp, path, v); }
      if PrefixVerdict(mp, path, UNLISTED) { PrefixMeans(mp, path, UNLISTED); }
      if PrefixVerdict(mm, name, v) { PrefixMeans(mm, name, v); }
    }
  }

  /** A rule for the whole name comes before one for the path: F#b whitelisted, F blacklisted. */
  lemma ExactRuleFirst(mm: map<Key, Ptr>, stale: bool, unset: Byte, v: Ptr)
    requires Verdict(map[[70, HASH, 98] := 1], map[[70] := 2], mm, stale, [70, HASH, 98], [70], [98], unset, v)
    ensures v == 1
  {
  }

  /** A rule that the scan finds behind the path decides before all prefixes. */
  lemma MarkedRuleDecides(mf: map<Key, Ptr>, mp: map<Key, Ptr>, mm: map<Key, Ptr>, stale: bool, full: Key, path: Key,
                          name: Key, unset: Byte, k: Key, v: Ptr)
    requires NoExact(mf, mp, mm, full, path, name) && Trailing(mp, path, full, unset, Some(k)) && Less(path, k)
    requires Verdict(mf, mp, mm, stale, full, path, name, unset, v)
    ensures v == mp[k]
  {
    var l := TrailingOf(mp, mm, stale, full, path, name, unset, v);
    TrailingUnique(mp, path, full, unset, Some(k), l);
  }

  /** The verdict is the one the rules give exactly when no rule is lost to missing data. */
  lemma FreshExactly(mf: map<Key, Ptr>, mp: map<Key, Ptr>, mm: map<Key, Ptr>, stale: bool,
                     full: Key, path: Key, name: Key, unset: Byte, v: Ptr, w: Ptr)
    requires Verdict(mf, mp, mm, stale, full, path, name, unset, v)
    requires Verdict(mf, mp, mm, false, full, path, name, unset, w)
    ensures v == w <==> !(NoExact(mf, mp, mm, full, path, name) && LosesRule(mp, stale, full, path, unset))
  {
    if NoExact(mf, mp, mm, full, path, name) {
      InexactFresh(mp, mm, stale, full, path, name, unset, v, w);
    }
  }

  lemma InexactFresh(mp: map<Key, Ptr>, mm: map<Key, Ptr>, stale: bool, full: Key, path: Key, name: Key, unset: Byte,
                     v: Ptr, w: Ptr)
    requires Inexact(mp, mm, stale, full, path, name, unset, v) && Inexact(mp, mm, false, full, path, name, unset, w)
    ensures v == w <==> !LosesRule(mp, stale, full, path, unset)
  {
    var k := TrailingOf(mp, mm, stale, full, path, name, unset, v);
    var l := TrailingOf(mp, mm, false, full, path, name, unset, w);
    hide Trailing, PrefixVerdict, Less, Inexact;
    TrailingUnique(mp, path, full, unset, k, l);
    forall x | Trailing(mp, path, full, unset, Some(x)) ensures k == Some(x) {
      TrailingUnique(mp, path, full, unset, k, Some(x));
    }
    if k.None? {
      if PrefixVerdict(mp, path, UNLISTED) {
        if PrefixVerdict(mp, path, v) { PrefixVerdictUnique(mp, path, v, UNLISTED); }
        if PrefixVerdict(mp, path, w) { PrefixVerdictUnique(mp, path, w, UNLISTED); }
        PrefixVerdictUnique(mm, name, v, w);
      } else {
        PrefixVerdictUnique(mp, path, v, w);
      }
    }
  }

  lemma TrailingOf(mp: map<Key, Ptr>, mm: map<Key, Ptr>, stale: bool, full: Key, path: Key, name: Key, unset: Byte,
                   v: Ptr)
    returns (k: Option<Key>)
    requires Inexact(mp, mm, stale, full, path, name, unset, v)
    ensures Trailing(mp, path, full, unset, k)
    ensures match k
            case Some(x) => TrailingData(mp, stale, path, x, v)
            case None =>
              (PrefixVerdict(mp, path, v) && v != UNLISTED) ||
              (PrefixVerdict(mp, path, UNLISTED) && PrefixVerdict(mm, name, v))
  {
    k :| Trailing(mp, path, full, unset, k) &&
         match k
         case Some(x) => TrailingData(mp, stale, path, x, v)
         case None =>
           (PrefixVerdict(mp, path, v) && v != UNLISTED) ||
           (PrefixVerdict(mp, path, UNLISTED) && PrefixVerdict(mm, name, v));
  }

  lemma PrefixNotAbove(l: Key, path: Key)
    requires l <= path
    ensures NotAbove(l, path)
  {
    assert path == l + path[|l|..];
    LessExtend(l, path[|l|..]);
    LessTotal(l, path);
    if |l| == |path| { assert l == path; }
  }

  /** A rule for all methods of the path, such as "Foo#", is the one that decides exactly when
      the path has at least two bytes, the scan is not blind, and it does not find a marked rule
      right before the path. */
  lemma HashRule(m: map<Key, Ptr>, path: Key, name: Key, unset: Byte)
    requires path + [HASH] in m
    ensures Trailing(m, path, path + [HASH] + name, unset, Some(path + [HASH])) <==>
            |path| >= 2 && !Blind(m, path, unset) && forall k | Nearest(m, path, k) :: !Marks(k, path + [HASH] + name)
  {
    if |path| >= 2 {
      HashRuleDecides(m, path, name, unset);
    }
  }

  lemma HashRuleDecides(m: map<Key, Ptr>, path: Key, name: Key, unset: Byte)
    requires |path| >= 2 && path + [HASH] in m
    ensures Trailing(m, path, path + [HASH] + name, unset, Some(path + [HASH])) <==>
            !Blind(m, path, unset) && forall k | Nearest(m, path, k) :: !Marks(k, path + [HASH] + name)
  {
    hide Blind, Nearest, Less;
    var rule, full := path + [HASH], path + [HASH] + name;
    LessExtend(path, [HASH]);
    assert Eligible(m, path, full, rule);
    forall l | l in m && Marks(l, full) && l != rule ensures Less(path, l) ==> |l| > |rule| {
      HashOrder(path, name, l);
    }
    forall k | Nearest(m, path, k) && Marks(k, full) ensures Eligible(m, path, full, k) && |k| < |rule| {
      NearestBelow(m, path, k);
      HashOrder(path, name, k);
      GivingUpHarmless(path, full, k);
    }
  }

  lemma NearestBelow(m: map<Key, Ptr>, path: Key, k: Key)
    requires Nearest(m, path, k)
    ensures k in m && NotAbove(k, path)
  {
  }

  /** Among the prefixes of the full name, those greater than the path are the longer ones. */
  lemma HashOrder(path: Key, name: Key, l: Key)
    requires l <= path + [HASH] + name
    ensures Less(path, l) <==> |l| > |path|
    ensures |l| == |path| + 1 ==> l == path + [HASH]
  {
    var full := path + [HASH] + name;
    if |l| <= |path| {
      assert l == full[..|l|] == path[..|l|];
      PrefixNotAbove(l, path);
    } else {
      assert l == path + l[|path|..];
      LessExtend(path, l[|path|..]);
    }
  }

  /** When all path rules are greater than the path none of them is seen, not even one that is
      a prefix of the full name: the method rules decide alone. */
  lemma PathRulesUnseen(mf: map<Key, Ptr>, mp: map<Key, Ptr>, mm: map<Key, Ptr>, stale: bool,
                        full: Key, path: Key, name: Key, unset: Byte, v: Ptr)
    requires NoExact(mf, mp, mm, full, path, name) && (forall k | k in mp :: Less(path, k))
    requires Verdict(mf, mp, mm, stale, full, path, name, unset, v)
    ensures PrefixVerdict(mm, name, v)
  {
    var k := TrailingOf(mp, mm, stale, full, path, name, unset, v);
    forall l | Applies(mp, path, l) ensures false {
      PrefixNotAbove(l, path);
    }
    if PrefixVerdict(mp, path, v) {
      assert !SomeWhitelists(mp, path) && !SomeApplies(mp, path);
    }
  }

  /** The only rule blacklists "Foo#", and Foo#bar is unlisted. */
  lemma HashRuleMissed(stale: bool, unset: Byte, v: Ptr)
    requires Verdict(map[], map[[70, 111, 111, HASH] := BLACKLISTED], map[], stale,
                     [70, 111, 111, HASH, 98, 97, 114], [70, 111, 111], [98, 97, 114], unset, v)
    ensures v == UNLISTED
  {
    var mp: map<Key, Ptr> := map[[70, 111, 111, HASH] := BLACKLISTED];
    LessExtend([70, 111, 111], [HASH]);
    assert [70, 111, 111] + [HASH] == [70, 111, 111, HASH];
    var full: Key := [70, 111, 111, HASH, 98, 97, 114];
    PathRulesUnseen(map[], mp, map[], stale, full, [70, 111, 111], [98, 97, 114], unset, v);
  }

  /** A class of one letter: the rules blacklist "A#" and "0", from which the scan starts, and
      A#x is unlisted, because keys of two bytes are not looked at. */
  lemma ShortHashRule(stale: bool, unset: Byte, v: Ptr)
    requires Verdict(map[], map[[48] := BLACKLISTED, [65, HASH] := BLACKLISTED], map[], stale,
                     [65, HASH, 120], [65], [120], unset, v)
    ensures v == UNLISTED
    ensures !Blind(map[[48] := BLACKLISTED, [65, HASH] := BLACKLISTED], [65], unset)
  {
    var rules: map<Key, Ptr> := map[[48] := BLACKLISTED, [65, HASH] := BLACKLISTED];
    assert !Less([65], [48]) && [48] in rules;
    assert !Marks([48], [65, HASH, 120]) && !Marks([65, HASH], [65, HASH, 120]);
    var k := TrailingOf(rules, map[], stale, [65, HASH, 120], [65], [120], unset, v);
    assert k == None;
    assert forall l | l in rules :: !Applies(rules, [65], l);
  }

  /** The rules blacklist "A::" and "A::BC". The path A::B ends inside the string that leads from
      one to the other, and A::B#x is unlisted. */
  lemma StaleRule(unset: Byte, v: Ptr)
    requires var rules: map<Key, Ptr> :=
               map[[65, COLON, COLON] := BLACKLISTED, [65, COLON, COLON, 66, 67] := BLACKLISTED];
             Verdict(map[], rules, map[], Shadowed(rules, [65, COLON, COLON, 66]),
                     [65, COLON, COLON, 66, HASH, 120], [65, COLON, COLON, 66], [120], unset, v)
    ensures v == UNLISTED
  {
    var rules: map<Key, Ptr> := map[[65, COLON, COLON] := BLACKLISTED, [65, COLON, COLON, 66, 67] := BLACKLISTED];
    var path, full: Key := [65, COLON, COLON, 66], [65, COLON, COLON, 66, HASH, 120];
    assert path + [67] == [65, COLON, COLON, 66, 67];
    assert GoesOn([65, COLON, COLON, 66, 67], path, 67);
    assert Shadows(rules, path, [65, COLON, COLON], 67);
    StaleTrailing(rules, path, full, unset);
    var k := TrailingOf(rules, map[], true, full, path, [120], unset, v);
    TrailingUnique(rules, path, full, unset, k, Some([65, COLON, COLON]));
  }

  lemma StaleTrailing(rules: map<Key, Ptr>, path: Key, full: Key, unset: Byte)
    requires rules == map[[65, COLON, COLON] := BLACKLISTED, [65, COLON, COLON, 66, 67] := BLACKLISTED]
    requires path == [65, COLON, COLON, 66] && full == [65, COLON, COLON, 66, HASH, 120]
    ensures Trailing(rules, path, full, unset, Some([65, COLON, COLON])) && NotAbove([65, COLON, COLON], path)
  {
    var a, b: Key := [65, COLON, COLON], [65, COLON, COLON, 66, 67];
    LessExtend(a, [66]);
    LessExtend(path, [67]);
    LessExtend(a, []);
    assert path == a + [66] && b == path + [67] && a + [] == a;
    LessTotal(a, path);
    assert Nearest(rules, path, a);
    assert b[4] != full[4];
    assert Marks(a, full) && !(b <= full);
  }

  /** Registering a library never takes one away: a path that was whitelisted stays so. */
  lemma RegisteringGrows(m: map<Key, Ptr>, library: Key, path: Key, v: Ptr)
    requires PrefixVerdict(m, path, WHITELISTED) && PrefixVerdict(m[library := WHITELISTED], path, v)
    ensures v == WHITELISTED
  {
    var now := m[library := WHITELISTED];
    var l :| l in m && l != [] && l[0] == path[0];
    assert l in now;
    if SomeWhitelists(m, path) {
      var k :| Applies(m, path, k) && m[k] == WHITELISTED;
      assert Applies(now, path, k) && now[k] == WHITELISTED;
    }
  }
}
