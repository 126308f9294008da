/** The two-region ring buffer of bipbuffer.c: region A is read from the front, region B fills
    the space in front of A once that is larger than the space behind it. */
module BipBuffer {
  import opened Wrappers
  import opened Bytes

  const TWO_32: nat := 0x1_0000_0000

  /** Capacities are passed around as int. */
  const MAX_SIZE: nat := 0x7FFF_FFFF

  datatype State = State(data: Key, aStart: nat, aEnd: nat, bEnd: nat, bInUse: bool)

  /** The regions lie in the buffer and do not overlap; when A is empty so is B, and both
      start over at the front. */
  predicate Regions(s: State) {
    && |s.data| <= MAX_SIZE
    && s.aStart <= s.aEnd <= |s.data|
    && (if s.bInUse then s.bEnd <= s.aStart else s.bEnd == 0)
    && (s.aStart == s.aEnd ==> s.aStart == 0 && !s.bInUse)
  }

  function RegionA(s: State): Key
    requires Regions(s)
  {
    s.data[s.aStart..s.aEnd]
  }

  function RegionB(s: State): Key
    requires Regions(s)
  {
    s.data[..s.bEnd]
  }

  /** The queue of bytes the buffer stands for. */
  function Contents(s: State): Key
    requires Regions(s)
  {
    RegionA(s) + RegionB(s)
  }

  /** bipbuf_unused. */
  function Unused(s: State): int {
    if s.bInUse then s.aStart - s.bEnd else |s.data| - s.aEnd
  }

  /** bipbuf_used. */
  function Used(s: State): int {
    s.aEnd - s.aStart + s.bEnd
  }

  /** __check_for_switch_to_b: the right-hand side is a difference of 32-bit unsigned numbers. */
  function SwitchToB(s: State): State {
    if |s.data| - s.aEnd < (s.aStart - s.bEnd) % TWO_32 then s.(bInUse := true) else s
  }

  function Write(data: Key, at: nat, bytes: Key): (r: Key)
    requires at + |bytes| <= |data|
    ensures |r| == |data|
  {
    data[..at] + bytes + data[at + |bytes|..]
  }

  function Offered(s: State, bytes: Key): State
    requires Regions(s) && |bytes| <= Unused(s)
  {
    SwitchToB(if s.bInUse then s.(data := Write(s.data, s.bEnd, bytes), bEnd := s.bEnd + |bytes|)
              else s.(data := Write(s.data, s.aEnd, bytes), aEnd := s.aEnd + |bytes|))
  }

  /** The check of bipbuf_poll: only the capacity counts. */
  predicate Pollable(s: State, n: nat) {
    s.aStart != s.aEnd && (s.aStart + n) % TWO_32 <= |s.data|
  }

  function Polled(s: State, n: nat): State {
    var a := (s.aStart + n) % TWO_32;
    SwitchToB(if a != s.aEnd then s.(aStart := a)
              else if s.bInUse then State(s.data, 0, s.bEnd, 0, false)
              else s.(aStart := 0, aEnd := 0))
  }

  // ---------------------------------------------------------------- a bounded queue of bytes

  /** An accepted offer appends its bytes, in one piece, and keeps the regions apart. */
  lemma OfferedQueue(s: State, bytes: Key)
    requires Regions(s) && |bytes| <= Unused(s)
    ensures var t := Offered(s, bytes);
            Regions(t) && Contents(t) == Contents(s) + bytes &&
            (if s.bInUse then RegionA(t) == RegionA(s) && RegionB(t) == RegionB(s) + bytes
             else RegionA(t) == RegionA(s) + bytes && RegionB(t) == []) &&
            |t.data| == |s.data|
  {
    var t := Offered(s, bytes);
    if s.bInUse {
      assert t.data[t.aStart..t.aEnd] == s.data[s.aStart..s.aEnd];
      assert t.data[..t.bEnd] == s.data[..s.bEnd] + bytes;
    } else {
      assert t.data[t.aStart..t.aEnd] == s.data[s.aStart..s.aEnd] + bytes;
      assert t.bEnd == 0;
    }
  }

  /** A poll of no more than region A holds takes that many bytes from the front. */
  lemma PolledQueue(s: State, n: nat)
    requires Regions(s) && s.aStart != s.aEnd && n <= s.aEnd - s.aStart
    ensures Pollable(s, n)
    ensures var t := Polled(s, n);
            Regions(t) && Contents(t) == Contents(s)[n..] && t.data == s.data &&
            if n < s.aEnd - s.aStart then RegionA(t) == RegionA(s)[n..] && RegionB(t) == RegionB(s)
            else RegionA(t) == RegionB(s) && RegionB(t) == []
  {
    PolledState(s, n);
    hide Polled, Pollable, Contents, Regions, RegionA, RegionB, SwitchToB;
    if n < s.aEnd - s.aStart {
      PolledInside(s, n);
    } else {
      PolledUp(s, n);
    }
  }

  lemma SwitchKeeps(s: State)
    requires Regions(s)
    ensures Regions(SwitchToB(s))
  {
  }

  /** Within region A neither the sum nor the position wraps. */
  lemma PolledState(s: State, n: nat)
    requires Regions(s) && s.aStart != s.aEnd && n <= s.aEnd - s.aStart
    ensures var t := if n < s.aEnd - s.aStart then s.(aStart := s.aStart + n)
                     else if s.bInUse then State(s.data, 0, s.bEnd, 0, false)
                     else s.(aStart := 0, aEnd := 0);
            Pollable(s, n) && Polled(s, n) == SwitchToB(t) && Regions(SwitchToB(t))
  {
    hide SwitchToB;
    SwitchKeeps(if n < s.aEnd - s.aStart then s.(aStart := s.aStart + n)
                else if s.bInUse then State(s.data, 0, s.bEnd, 0, false)
                else s.(aStart := 0, aEnd := 0));
  }

  lemma PolledInside(s: State, n: nat)
    requires Regions(s) && n < s.aEnd - s.aStart && Regions(Polled(s, n))
    requires Polled(s, n) == SwitchToB(s.(aStart := s.aStart + n))
    ensures var t := Polled(s, n);
            Contents(t) == Contents(s)[n..] && t.data == s.data &&
            RegionA(t) == RegionA(s)[n..] && RegionB(t) == RegionB(s)
  {
    hide Polled;
    SliceTail(s.data, s.aStart, n, s.aEnd);
    DropFront(RegionA(s), RegionB(s), n);
  }

  lemma DropFront(a: Key, b: Key, n: nat)
    requires n <= |a|
    ensures (a + b)[n..] == a[n..] + b
  {
  }

  lemma PolledUp(s: State, n: nat)
    requires Regions(s) && s.aStart != s.aEnd && n == s.aEnd - s.aStart && Regions(Polled(s, n))
    requires Polled(s, n) == SwitchToB(if s.bInUse then State(s.data, 0, s.bEnd, 0, false)
                                       else s.(aStart := 0, aEnd := 0))
    ensures var t := Polled(s, n);
            Contents(t) == Contents(s)[n..] && t.data == s.data && RegionA(t) == RegionB(s) && RegionB(t) == []
  {
    hide Polled;
    DropFront(RegionA(s), RegionB(s), n);
  }

  lemma SliceTail(d: Key, a: nat, n: nat, b: nat)
    requires a + n <= b <= |d|
    ensures d[a + n..b] == d[a..b][n..]
  {
  }

  /** bipbuf_poll does not look at the end of region A: it works as a queue of bytes exactly
      when asked for no more than region A holds. */
  lemma PollExactly(s: State, n: nat)
    requires Regions(s) && n < TWO_32 && Pollable(s, n)
    ensures n <= s.aEnd - s.aStart <==>
            Regions(Polled(s, n)) && n <= |Contents(s)| && Contents(Polled(s, n)) == Contents(s)[n..]
  {
    if n <= s.aEnd - s.aStart {
      PolledQueue(s, n);
    } else if s.aStart + n < TWO_32 {
      assert !Regions(Polled(s, n));
    }
  }

  /** A poll past region A is let through by the capacity check and breaks the regions: two
      bytes are held in a buffer of eight, and four are asked for. */
  lemma PollTooMuch()
    ensures var s := State([1, 2, 0, 0, 0, 0, 0, 0], 0, 2, 0, false);
            Regions(s) && Pollable(s, 4) && !Regions(Polled(s, 4))
  {
  }

  /** The buffer is empty exactly when both regions are, and then all of it is free. */
  lemma EmptyMeansEmpty(s: State)
    requires Regions(s)
    ensures s.aStart == s.aEnd <==> Contents(s) == []
    ensures Contents(s) == [] ==> Unused(s) == |s.data|
    ensures Used(s) == |Contents(s)| && 0 <= Unused(s) <= |s.data| - Used(s)
  {
  }

  // ---------------------------------------------------------------- when region B is used

  /** While region B is not in use, the space behind A is at least as large as that in front. */
  predicate Behind(s: State) {
    !s.bInUse ==> |s.data| - s.aEnd >= s.aStart
  }

  /** After an accepted offer; B comes into use when the space in front of A is larger. */
  lemma OfferedBehind(s: State, bytes: Key)
    requires Regions(s) && |bytes| <= Unused(s)
    ensures var t := Offered(s, bytes);
            Behind(t) && (s.bInUse ==> t.bInUse) && (!s.bInUse ==> (t.bInUse <==> t.aStart > |t.data| - t.aEnd))
  {
  }

  /** After a poll, whatever it asked for; when A is used up B has taken its place. */
  lemma PolledBehind(s: State, n: nat)
    requires Regions(s) && Pollable(s, n)
    ensures var t := Polled(s, n);
            Behind(t) && (!s.bInUse ==> (t.bInUse <==> t.aStart > |t.data| - t.aEnd)) &&
            (s.bInUse && s.aStart + n < s.aEnd ==> t.bInUse) && (s.bInUse && s.aStart + n == s.aEnd ==> !t.bInUse)
  {
  }

  // ---------------------------------------------------------------- messages in the buffer

  function Flatten(ms: seq<Key>): Key {
    if ms == [] then [] else ms[0] + Flatten(ms[1..])
  }

  lemma {:induction false} FlattenConcat(a: seq<Key>, b: seq<Key>)
    ensures Flatten(a + b) == Flatten(a) + Flatten(b)
  {
    if a == [] {
      assert a + b == b;
    } else {
      assert (a + b)[1..] == a[1..] + b;
      FlattenConcat(a[1..], b);
    }
  }

  lemma FlattenOne(m: Key)
    ensures Flatten([m]) == m
  {
    assert [m][1..] == [];
  }

  predicate NonEmpty(ms: seq<Key>) {
    forall i | 0 <= i < |ms| :: ms[i] != []
  }

  /** Each region is a row of whole messages: none is split between them. */
  predicate Framed(s: State, ms: seq<Key>, k: nat) {
    && Regions(s) && NonEmpty(ms) && k <= |ms|
    && RegionA(s) == Flatten(ms[..k]) && RegionB(s) == Flatten(ms[k..])
  }

  lemma FlattenEmpty(ms: seq<Key>)
    requires NonEmpty(ms)
    ensures Flatten(ms) == [] <==> ms == []
  {
  }

  lemma RowAppend(ms: seq<Key>, k: nat, m: Key)
    requires NonEmpty(ms) && k <= |ms| && m != []
    ensures NonEmpty(ms + [m]) && (ms + [m])[..k] == ms[..k] && (ms + [m])[k..] == ms[k..] + [m]
    ensures (ms + [m])[..|ms| + 1] == ms + [m] && (ms + [m])[|ms| + 1..] == []
  {
    hide Flatten;
  }

  lemma FramedOffer(s: State, ms: seq<Key>, k: nat, m: Key)
    requires Framed(s, ms, k) && m != [] && |m| <= Unused(s)
    ensures Framed(Offered(s, m), ms + [m], if s.bInUse then k else k + 1)
  {
    OfferedQueue(s, m);
    RowAppend(ms, k, m);
    FlattenOne(m);
    FlattenConcat(ms[k..], [m]);
    FlattenConcat(ms, [m]);
    FlattenEmpty(ms[k..]);
    FlattenEmpty([]);
    assert !s.bInUse ==> RegionB(s) == [];
    hide Offered, Regions, RegionA, RegionB, Flatten, Unused, NonEmpty;
    assert !s.bInUse ==> k == |ms| && ms[..k] == ms;
  }

  /** The first message lies in region A, in one piece. */
  lemma FramedFirst(s: State, ms: seq<Key>, k: nat)
    requires Framed(s, ms, k) && s.aStart != s.aEnd
    ensures k > 0 && ms != [] && s.aStart + |ms[0]| <= s.aEnd
    ensures s.data[s.aStart..s.aStart + |ms[0]|] == ms[0]
  {
    assert ms[..k][0] == ms[0];
    assert RegionA(s) == ms[0] + Flatten(ms[..k][1..]);
    assert RegionA(s)[..|ms[0]|] == ms[0];
  }

  /** Polling the size of the first message takes that message. */
  lemma FramedPoll(s: State, ms: seq<Key>, k: nat)
    requires Framed(s, ms, k) && s.aStart != s.aEnd
    ensures ms != [] && Pollable(s, |ms[0]|)
    ensures exists k' :: Framed(Polled(s, |ms[0]|), ms[1..], k')
  {
    FramedFirst(s, ms, k);
    PolledQueue(s, |ms[0]|);
    var t, rest := Polled(s, |ms[0]|), ms[1..];
    FlattenEmpty(ms[..k][1..]);
    assert ms[..k][1..] == rest[..k - 1] && rest[k - 1..] == ms[k..];
    if k > 1 {
      assert RegionA(t) == Flatten(rest[..k - 1]);
      assert Framed(t, rest, k - 1);
    } else {
      assert rest == ms[k..] && rest[..|rest|] == rest && rest[|rest|..] == [];
      assert Framed(t, rest, |rest|);
    }
  }

  lemma FramedEmpty(s: State, ms: seq<Key>, k: nat)
    requires Framed(s, ms, k)
    ensures s.aStart == s.aEnd <==> ms == []
  {
    FlattenEmpty(ms[..k]);
    FlattenEmpty(ms[k..]);
    assert ms == ms[..k] + ms[k..];
  }

  // ---------------------------------------------------------------- the buffer as an object

  class BipBuf {
    const data: array<Byte>
    var aStart: nat
    var aEnd: nat
    var bEnd: nat
    var bInUse: bool

    function Value(): State
      reads this, data
    {
      State(data[..], aStart, aEnd, bEnd, bInUse)
    }

    /** bipbuf_new. */
    constructor (size: nat)
      requires size <= MAX_SIZE
      ensures Framed(Value(), [], 0) && fresh(data) && data.Length == size
    {
      data := new Byte[size](i => 0);
      aStart, aEnd, bEnd, bInUse := 0, 0, 0, false;
    }

    /** __check_for_switch_to_b. */
    method CheckForSwitchToB()
      modifies this`bInUse
      ensures Value() == SwitchToB(old(Value()))
    {
      if data.Length - aEnd < (aStart - bEnd) % TWO_32 {
        bInUse := true;
      }
    }

    method Copy(at: nat, bytes: Key)
      requires at + |bytes| <= data.Length
      modifies data
      ensures data[..] == Write(old(data[..]), at, bytes)
    {
      forall i | 0 <= i < |bytes| {
        data[at + i] := bytes[i];
      }
    }

    /** bipbuf_offer: all of the bytes or none. Afterwards region B is in use if the space in
        front of region A is larger than that behind it. */
    method Offer(bytes: Key) returns (n: nat)
      requires Regions(Value())
      modifies this, data
      ensures var room := if old(bInUse) then old(aStart) - old(bEnd) else data.Length - old(aEnd);
              n == (if |bytes| <= room then |bytes| else 0) &&
              (|bytes| <= room ==> bInUse == (old(bInUse) || aStart > data.Length - aEnd))
      ensures n == if |bytes| <= Unused(old(Value())) then |bytes| else 0
      ensures Value() == if |bytes| <= Unused(old(Value())) then Offered(old(Value()), bytes) else old(Value())
    {
      if (if bInUse then aStart - bEnd else data.Length - aEnd) < |bytes| {
        return 0;
      }
      if bInUse {
        Copy(bEnd, bytes);
        bEnd := bEnd + |bytes|;
      } else {
        Copy(aEnd, bytes);
        aEnd := aEnd + |bytes|;
      }
      CheckForSwitchToB();
      n := |bytes|;
    }

    /** bipbuf_peek: where the next n bytes start, if the capacity reaches that far. */
    method Peek(n: nat) returns (at: Option<nat>)
      ensures at == if Pollable(Value(), n) then Some(aStart) else None
      ensures at.Some? <==> aStart != aEnd && (aStart + n) % 0x1_0000_0000 <= data.Length
    {
      if data.Length < (aStart + n) % TWO_32 {
        return None;
      }
      if aStart == aEnd {
        return None;
      }
      at := Some(aStart);
    }

    /** bipbuf_poll: the same, and the bytes are given up. */
    method Poll(n: nat) returns (at: Option<nat>)
      modifies this
      ensures at == if Pollable(old(Value()), n) then Some(old(aStart)) else None
      ensures at.Some? <==> old(aStart) != old(aEnd) && (old(aStart) + n) % 0x1_0000_0000 <= data.Length
      ensures Value() == if at.Some? then Polled(old(Value()), n) else old(Value())
      ensures at.Some? && old(Regions(Value())) ==> Behind(Value())
      ensures at.Some? && old(Regions(Value())) && !old(bInUse) ==> bInUse == (aStart > data.Length - aEnd)
      ensures at.Some? && old(Regions(Value())) && old(bInUse) && old(aStart) + n <= old(aEnd) ==>
                bInUse == (old(aStart) + n < old(aEnd))
    {
      ghost var s := Value();
      if aStart == aEnd {
        return None;
      }
      if data.Length < (aStart + n) % TWO_32 {
        return None;
      }
      at := Some(aStart);
      aStart := (aStart + n) % TWO_32;
      if aStart == aEnd {
        if bInUse {
          aStart, aEnd, bEnd, bInUse := 0, bEnd, 0, false;
        } else {
          aStart, aEnd := 0, 0;
        }
      }
      CheckForSwitchToB();
      if Regions(s) { PolledBehind(s, n); }
    }
  }

  /** Six bytes of eight, three of them taken, and three more, which only fit in front. */
  method WrapsAround() returns (b: BipBuf, n: nat)
    ensures n == 3 && b.bInUse
  {
    b := new BipBuf(8);
    n := b.Offer([1, 2, 3, 4, 5, 6]);
    var at := b.Poll(3);
    n := b.Offer([7, 8, 9]);
  }
}
