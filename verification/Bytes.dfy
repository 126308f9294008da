/** Bytes, byte strings and the two orders the extension relies on: memcmp order on keys
    and the little-endian layout of integers copied with memcpy. */
module Bytes {
  newtype Byte = x: int | 0 <= x < 256
  type Key = seq<Byte>

  /** Strict lexicographic order, a proper prefix being smaller. */
  predicate Less(a: Key, b: Key) {
    if b == [] then false
    else if a == [] then true
    else a[0] < b[0] || (a[0] == b[0] && Less(a[1..], b[1..]))
  }

  lemma {:induction false} LessTotal(a: Key, b: Key)
    ensures Less(a, b) || a == b || Less(b, a)
    ensures !(Less(a, b) && Less(b, a))
    ensures Less(a, b) ==> a != b
  {
    if a != [] && b != [] {
      LessTotal(a[1..], b[1..]);
      if a[0] == b[0] && a[1..] == b[1..] {
        assert a == [a[0]] + a[1..] && b == [b[0]] + b[1..];
      }
    }
  }

  /** memcmp order: the first byte that differs decides, and otherwise the length. */
  lemma {:induction false} LessMeans(a: Key, b: Key)
    ensures Less(a, b) <==>
            exists i | 0 <= i <= |a| && i <= |b| ::
              a[..i] == b[..i] && if i == |a| then |a| < |b| else i < |b| && a[i] < b[i]
  {
    if a != [] && b != [] && a[0] == b[0] {
      LessMeans(a[1..], b[1..]);
      if Less(a[1..], b[1..]) {
        var i :| 0 <= i <= |a[1..]| && i <= |b[1..]| && a[1..][..i] == b[1..][..i] &&
                 if i == |a[1..]| then |a[1..]| < |b[1..]| else i < |b[1..]| && a[1..][i] < b[1..][i];
        assert a[..i + 1] == [a[0]] + a[1..][..i] && b[..i + 1] == [b[0]] + b[1..][..i];
      }
      if j :| 0 <= j <= |a| && j <= |b| && a[..j] == b[..j] &&
              if j == |a| then |a| < |b| else j < |b| && a[j] < b[j] {
        assert j > 0;
        assert a[1..][..j - 1] == a[..j][1..] && b[1..][..j - 1] == b[..j][1..];
      }
    } else {
      assert a[..0] == b[..0];
      assert forall j | 0 < j <= |a| && j <= |b| && a[..j] == b[..j] :: a[..j][0] == a[0] && b[..j][0] == b[0];
    }
  }

  lemma {:induction false} LessTransitive(a: Key, b: Key, c: Key)
    requires Less(a, b) && Less(b, c)
    ensures Less(a, c)
  {
    if a != [] && a[0] == b[0] == c[0] {
      LessTransitive(a[1..], b[1..], c[1..]);
    }
  }

  /** A shared prefix does not matter to the order. */
  lemma {:induction false} LessPrefix(p: Key, a: Key, b: Key)
    ensures Less(p + a, p + b) == Less(a, b)
  {
    if p == [] {
      assert p + a == a && p + b == b;
    } else {
      assert (p + a)[1..] == p[1..] + a && (p + b)[1..] == p[1..] + b;
      LessPrefix(p[1..], a, b);
    }
  }

  lemma LessExtend(p: Key, x: Key)
    ensures Less(p, p + x) <==> x != []
  {
    assert p + [] == p;
    LessPrefix(p, [], x);
  }

  lemma PrefixSplit(p: Key, l: Key, k: Key)
    ensures p + l <= k <==> p <= k && l <= k[|p|..]
  {
    if p <= k && l <= k[|p|..] {
      assert k == p + k[|p|..];
      assert k[|p|..] == l + k[|p|..][|l|..];
    }
    if p + l <= k {
      assert k == (p + l) + k[|p + l|..];
      assert k[|p|..] == l + k[|p + l|..];
    }
  }

  lemma PrefixCancel(p: Key, a: Key, b: Key)
    ensures p + a <= p + b <==> a <= b
  {
    assert (p + b)[|p|..] == b;
    PrefixSplit(p, a, p + b);
  }
}
