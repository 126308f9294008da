/** The bytes of one node: a header, the edge characters, padding to an aligned address, the
    child pointers and possibly a data pointer, edited in place with memmove. */
module RaxNodeBytes {
  import opened Wrappers
  import opened Bytes
  import opened RaxEdit

  const HEADER: nat := 4
  const WORD_SIZE: nat := 8

  /** The bytes of a pointer. */
  type Word = w: Key | |w| == WORD_SIZE witness [0, 0, 0, 0, 0, 0, 0, 0]

  /** raxPadding. */
  function Padding(size: nat): (p: nat)
    ensures p < WORD_SIZE
  {
    (WORD_SIZE - (size + HEADER) % 8) % 8
  }

  /** Where the pointers start. */
  function First(size: nat): (f: nat)
    ensures HEADER + size <= f
  {
    HEADER + size + Padding(size)
  }

  /** One more character moves the pointers by a whole word or not at all. */
  function Shift(size: nat): (s: nat)
    ensures s == First(size + 1) - First(size) && (s == 0 || s == WORD_SIZE)
  {
    PaddingStep(size);
    if Padding(size) == 0 then WORD_SIZE else 0
  }

  lemma PaddingStep(size: nat)
    ensures Padding(size + 1) == if Padding(size) == 0 then WORD_SIZE - 1 else Padding(size) - 1
    ensures (size + 1 + HEADER) % 8 == 1 <==> Padding(size) == 0
  {
  }

  /** raxNodeCurrentLength. */
  function Length(size: nat, compr: bool, data: bool): nat {
    First(size) + (if compr then WORD_SIZE else 8 * size) + if data then WORD_SIZE else 0
  }

  /** Header and characters are padded to the next multiple of eight, where the pointers start. */
  lemma LengthAligned(size: nat, compr: bool, data: bool)
    ensures First(size) == (size + 11) / 8 * 8 && First(size) % 8 == 0 && 4 + size <= First(size) < 4 + size + 8
    ensures Length(size, compr, data) ==
            (size + 11) / 8 * 8 + 8 * ((if compr then 1 else size) + if data then 1 else 0)
  {
  }

  /** What a node of these bytes holds: the characters, the pointers in the same order, and the
      data pointer behind them. */
  ghost predicate Layout(m: Key, compr: bool, chars: Key, ptrs: seq<Word>, data: Option<Word>) {
    && |m| == Length(|chars|, compr, data.Some?)
    && |ptrs| == (if compr then 1 else |chars|)
    && m[HEADER..HEADER + |chars|] == chars
    && (forall i | 0 <= i < |ptrs| :: Block(m, First(|chars|), i) == ptrs[i])
    && (data.Some? ==> m[|m| - WORD_SIZE..] == data.value)
  }

  /** The i-th pointer behind offset p. */
  function Block(m: Key, p: nat, i: nat): Key
    requires p + 8 * i + WORD_SIZE <= |m|
  {
    m[p + 8 * i..p + 8 * i + WORD_SIZE]
  }

  /** memmove: the bytes are read before any is written. */
  method Memmove(a: array<Byte>, dst: nat, src: nat, len: nat)
    requires dst + len <= a.Length && src + len <= a.Length
    modifies a
    ensures a[..] == Moved(old(a[..]), dst, src, len)
  {
    forall i | 0 <= i < len {
      a[dst + i] := a[src + i];
    }
  }

  function Moved(m: Key, dst: nat, src: nat, len: nat): (r: Key)
    requires dst + len <= |m| && src + len <= |m|
    ensures |r| == |m|
  {
    seq(|m|, x requires 0 <= x < |m| => if dst <= x < dst + len then m[src + x - dst] else m[x])
  }

  function Stored(m: Key, at: nat, w: Key): (r: Key)
    requires at + |w| <= |m|
    ensures |r| == |m|
  {
    seq(|m|, x requires 0 <= x < |m| => if at <= x < at + |w| then w[x - at] else m[x])
  }

  /** rax_realloc: the common part keeps its bytes. */
  method Realloc(a: array<Byte>, len: nat) returns (b: array<Byte>)
    ensures fresh(b) && b.Length == len
    ensures forall i | 0 <= i < len && i < a.Length :: b[i] == a[i]
  {
    b := new Byte[len](i => 0);
    forall i | 0 <= i < len && i < a.Length {
      b[i] := a[i];
    }
  }

  /** Copy a pointer into the node. */
  method Store(a: array<Byte>, at: nat, w: Word)
    requires at + WORD_SIZE <= a.Length
    modifies a
    ensures a[..] == Stored(old(a[..]), at, w)
  {
    forall i | 0 <= i < WORD_SIZE {
      a[at + i] := w[i];
    }
  }

  // ---------------------------------------------------------------- adding a child, step by step

  /** n characters, pointers from f on, which one more character moves to f + s. */
  predicate Spaced(n: nat, f: nat, s: nat) {
    HEADER + n <= f && HEADER + n + 1 <= f + s && (s == 0 || s == WORD_SIZE)
  }

  /** The bytes of n pointers from f on and the data pointer behind them. */
  function End(n: nat, f: nat, data: bool): nat {
    f + 8 * n + if data then WORD_SIZE else 0
  }

  /** The data pointer goes to the new end. */
  function AddStep1(m: Key, n: nat, f: nat, s: nat, data: bool): (r: Key)
    requires Spaced(n, f, s) && |m| == End(n + 1, f + s, data)
    ensures |r| == |m|
  {
    if data then Moved(m, |m| - WORD_SIZE, End(n, f, true) - WORD_SIZE, WORD_SIZE) else m
  }

  function MovedRight(m: Key, n: nat, f: nat, s: nat, pos: nat): (r: Key)
    requires Spaced(n, f, s) && pos <= n && |m| >= End(n + 1, f + s, false)
    ensures |r| == |m|
  {
    Moved(m, f + s + 8 * (pos + 1), f + 8 * pos, 8 * (n - pos))
  }

  /** The pointers behind the insertion point move right, those before it when the padding is
      used up. */
  function AddStep2(m: Key, n: nat, f: nat, s: nat, pos: nat): (r: Key)
    requires Spaced(n, f, s) && pos <= n && |m| >= End(n + 1, f + s, false)
    ensures |r| == |m|
  {
    var right := MovedRight(m, n, f, s, pos);
    if s > 0 then Moved(right, f + s, f, 8 * pos) else right
  }

  /** Room for the character, the character, and the pointer to the child. */
  function AddStep3(m: Key, n: nat, f: nat, s: nat, pos: nat, c: Byte, w: Word): (r: Key)
    requires Spaced(n, f, s) && pos <= n && |m| >= End(n + 1, f + s, false)
    ensures |r| == |m|
  {
    Stored(Moved(m, HEADER + pos + 1, HEADER + pos, n - pos)[HEADER + pos := c], f + s + 8 * pos, w)
  }

  function Added(m: Key, n: nat, f: nat, s: nat, pos: nat, c: Byte, w: Word, data: bool): (r: Key)
    requires Spaced(n, f, s) && pos <= n && |m| == End(n + 1, f + s, data)
    ensures |r| == |m|
  {
    AddStep3(AddStep2(AddStep1(m, n, f, s, data), n, f, s, pos), n, f, s, pos, c, w)
  }

  lemma AddStep1At(m: Key, n: nat, f: nat, s: nat, data: bool, z: nat)
    requires Spaced(n, f, s) && |m| == End(n + 1, f + s, data) && z < |m|
    ensures AddStep1(m, n, f, s, data)[z] == m[if data && z >= |m| - WORD_SIZE then z - s - WORD_SIZE else z]
  {
  }

  lemma AddStep2At(m: Key, n: nat, f: nat, s: nat, pos: nat, z: nat)
    requires Spaced(n, f, s) && pos <= n && |m| >= End(n + 1, f + s, false) && z < |m|
    ensures AddStep2(m, n, f, s, pos)[z] ==
            m[if f + s + 8 * (pos + 1) <= z < f + s + 8 * (n + 1) then z - s - WORD_SIZE
              else if f + s <= z < f + s + 8 * pos then z - s else z]
  {
    var right := MovedRight(m, n, f, s, pos);
    assert right[z] == m[if f + s + 8 * (pos + 1) <= z < f + s + 8 * (n + 1) then z - s - WORD_SIZE else z];
    assert f + s <= z < f + s + 8 * pos ==> right[z - s] == m[z - s];
  }

  lemma AddStep3At(m: Key, n: nat, f: nat, s: nat, pos: nat, c: Byte, w: Word, z: nat)
    requires Spaced(n, f, s) && pos <= n && |m| >= End(n + 1, f + s, false) && z < |m|
    ensures AddStep3(m, n, f, s, pos, c, w)[z] ==
            if f + s + 8 * pos <= z < f + s + 8 * (pos + 1) then w[z - f - s - 8 * pos]
            else if z == HEADER + pos then c
            else m[if HEADER + pos < z <= HEADER + n then z - 1 else z]
  {
  }

  lemma AddedChars(m: Key, n: nat, f: nat, s: nat, pos: nat, c: Byte, w: Word, data: bool, x: nat)
    requires Spaced(n, f, s) && pos <= n && |m| == End(n + 1, f + s, data) && x <= n
    ensures Added(m, n, f, s, pos, c, w, data)[HEADER + x] ==
            if x < pos then m[HEADER + x] else if x == pos then c else m[HEADER + x - 1]
  {
    hide AddStep1, AddStep2, AddStep3;
    var m1 := AddStep1(m, n, f, s, data);
    var m2 := AddStep2(m1, n, f, s, pos);
    var z := HEADER + if x <= pos then x else x - 1;
    AddStep3At(m2, n, f, s, pos, c, w, HEADER + x);
    if x != pos {
      AddStep2At(m1, n, f, s, pos, z);
      AddStep1At(m, n, f, s, data, z);
    }
  }

  /** Byte y of pointer i. */
  lemma AddedPointers(m: Key, n: nat, f: nat, s: nat, pos: nat, c: Byte, w: Word, data: bool, i: nat, y: nat)
    requires Spaced(n, f, s) && pos <= n && |m| == End(n + 1, f + s, data) && i <= n && y < WORD_SIZE
    ensures Added(m, n, f, s, pos, c, w, data)[f + s + 8 * i + y] ==
            if i < pos then m[f + 8 * i + y] else if i == pos then w[y] else m[f + 8 * (i - 1) + y]
  {
    hide AddStep1, AddStep2, AddStep3;
    var m1 := AddStep1(m, n, f, s, data);
    var m2 := AddStep2(m1, n, f, s, pos);
    var z := f + s + 8 * i + y;
    AddStep3At(m2, n, f, s, pos, c, w, z);
    if i != pos {
      AddStep2At(m1, n, f, s, pos, z);
      AddStep1At(m, n, f, s, data, if i < pos then z - s else z - s - WORD_SIZE);
    }
  }

  lemma AddedData(m: Key, n: nat, f: nat, s: nat, pos: nat, c: Byte, w: Word, y: nat)
    requires Spaced(n, f, s) && pos <= n && |m| == End(n + 1, f + s, true) && y < WORD_SIZE
    ensures Added(m, n, f, s, pos, c, w, true)[|m| - WORD_SIZE + y] == m[End(n, f, false) + y]
  {
    hide AddStep1, AddStep2, AddStep3;
    var z := |m| - WORD_SIZE + y;
    var m1 := AddStep1(m, n, f, s, true);
    AddStep3At(AddStep2(m1, n, f, s, pos), n, f, s, pos, c, w, z);
    AddStep2At(m1, n, f, s, pos, z);
    AddStep1At(m, n, f, s, true, z);
  }

  lemma AddedBlock(was: Key, m: Key, chars: Key, ptrs: seq<Word>, data: Option<Word>, f: nat, s: nat, c: Byte,
                   w: Word, i: nat)
    requires Layout(was, false, chars, ptrs, data) && i <= |chars| && f == First(|chars|) && Spaced(|chars|, f, s)
    requires |m| == End(|chars| + 1, f + s, data.Some?) && was <= m
    ensures Block(Added(m, |chars|, f, s, InsertPos(chars, c), c, w, data.Some?), f + s, i) ==
            InsertAt(ptrs, InsertPos(chars, c), w)[i]
  {
    hide First, Added, InsertPos, Spaced;
    var n, pos := |chars|, InsertPos(chars, c);
    var r := Added(m, n, f, s, pos, c, w, data.Some?);
    if i < n { assert Block(was, f, i) == ptrs[i]; }
    if i > 0 { assert Block(was, f, i - 1) == ptrs[i - 1]; }
    forall y | 0 <= y < WORD_SIZE ensures Block(r, f + s, i)[y] == InsertAt(ptrs, pos, w)[i][y] {
      AddedPointers(m, n, f, s, pos, c, w, data.Some?, i, y);
      assert i < n ==> Block(was, f, i)[y] == was[f + 8 * i + y];
      assert i > 0 ==> Block(was, f, i - 1)[y] == was[f + 8 * (i - 1) + y];
    }
  }

  lemma AddedString(was: Key, m: Key, chars: Key, ptrs: seq<Word>, data: Option<Word>, f: nat, s: nat, c: Byte,
                    w: Word)
    requires Layout(was, false, chars, ptrs, data) && Spaced(|chars|, f, s)
    requires |m| == End(|chars| + 1, f + s, data.Some?) && was <= m
    ensures Added(m, |chars|, f, s, InsertPos(chars, c), c, w, data.Some?)[HEADER..HEADER + |chars| + 1] ==
            InsertAt(chars, InsertPos(chars, c), c)
  {
    hide First, Added, InsertPos, Spaced;
    var n, pos := |chars|, InsertPos(chars, c);
    var r := Added(m, n, f, s, pos, c, w, data.Some?);
    forall x | 0 <= x <= n ensures r[HEADER + x] == InsertAt(chars, pos, c)[x] {
      AddedChars(m, n, f, s, pos, c, w, data.Some?, x);
      assert x < n ==> m[HEADER + x] == was[HEADER..HEADER + n][x];
      assert x > 0 ==> m[HEADER + x - 1] == was[HEADER..HEADER + n][x - 1];
    }
  }

  /** What the steps make of a node: sorted insertion into both arrays, the data kept. */
  lemma AddedLayout(was: Key, m: Key, chars: Key, ptrs: seq<Word>, data: Option<Word>, f: nat, s: nat, c: Byte, w: Word)
    requires Layout(was, false, chars, ptrs, data)
    requires f == First(|chars|) && f + s == First(|chars| + 1) && Spaced(|chars|, f, s)
    requires |m| == End(|chars| + 1, f + s, data.Some?) && was <= m
    ensures var pos := InsertPos(chars, c);
            Layout(Added(m, |chars|, f, s, pos, c, w, data.Some?), false,
                   InsertAt(chars, pos, c), InsertAt(ptrs, pos, w), data)
  {
    hide First, Added, InsertPos, Spaced;
    var n, pos := |chars|, InsertPos(chars, c);
    var r := Added(m, n, f, s, pos, c, w, data.Some?);
    AddedString(was, m, chars, ptrs, data, f, s, c, w);
    forall i | 0 <= i <= n ensures Block(r, f + s, i) == InsertAt(ptrs, pos, w)[i] {
      AddedBlock(was, m, chars, ptrs, data, f, s, c, w, i);
    }
    if data.Some? {
      forall y | 0 <= y < WORD_SIZE ensures r[|r| - WORD_SIZE..][y] == data.value[y] {
        AddedData(m, n, f, s, pos, c, w, y);
        assert was[|was| - WORD_SIZE..][y] == data.value[y];
      }
    }
  }

  // ---------------------------------------------------------------- removing a child, step by step

  /** The characters behind the i-th close the gap; the pointers before the i-th move left by s. */
  function CutStep1(m: Key, n: nat, f: nat, s: nat, i: nat): (r: Key)
    requires i <= n && Spaced(n, f, s) && |m| >= End(n + 1, f + s, false)
    ensures |r| == |m|
  {
    var c := Moved(m, HEADER + i, HEADER + i + 1, n - i);
    if s > 0 then Moved(c, f, f + s, 8 * i) else c
  }

  lemma CutRoom(n: nat, f: nat, s: nat, i: nat, data: bool)
    requires i <= n && Spaced(n, f, s)
    ensures f + 8 * i + TailLength(n, i, data) <= End(n + 1, f + s, data)
    ensures f + s + 8 * (i + 1) + TailLength(n, i, data) == End(n + 1, f + s, data)
  {
  }

  /** The pointers behind it, and the data pointer, close the gap. */
  function CutStep2(m: Key, n: nat, f: nat, s: nat, i: nat, data: bool): (r: Key)
    requires i <= n && Spaced(n, f, s) && |m| >= End(n + 1, f + s, data)
    ensures |r| == |m|
  {
    CutRoom(n, f, s, i, data);
    Moved(m, f + 8 * i, f + s + 8 * (i + 1), TailLength(n, i, data))
  }

  lemma CutBack(m: Key, n: nat, f: nat, s: nat, i: nat, data: bool)
    requires i <= n && Spaced(n, f, s) && |m| >= End(n + 1, f + s, data)
    requires f + 8 * i + TailLength(n, i, data) <= |m| && f + s + 8 * (i + 1) + TailLength(n, i, data) <= |m|
    ensures CutStep2(m, n, f, s, i, data) == Moved(m, f + 8 * i, f + s + 8 * (i + 1), TailLength(n, i, data))
  {
  }

  /** The pointers behind the i-th of n + 1, and the data pointer. */
  function TailLength(n: nat, i: nat, data: bool): nat
    requires i <= n
  {
    8 * (n - i) + if data then WORD_SIZE else 0
  }

  /** Removing child i of n + 1 from a node with pointers from f + s on. */
  function Cut(m: Key, n: nat, f: nat, s: nat, i: nat, data: bool): (r: Key)
    requires i <= n && Spaced(n, f, s) && |m| >= End(n + 1, f + s, data)
    ensures |r| == |m|
  {
    CutStep2(CutStep1(m, n, f, s, i), n, f, s, i, data)
  }

  lemma CutStep1At(m: Key, n: nat, f: nat, s: nat, i: nat, z: nat)
    requires i <= n && Spaced(n, f, s) && |m| >= End(n + 1, f + s, false) && z < |m|
    ensures CutStep1(m, n, f, s, i)[z] ==
            m[if HEADER + i <= z < HEADER + n then z + 1 else if f <= z < f + 8 * i then z + s else z]
  {
    var c := Moved(m, HEADER + i, HEADER + i + 1, n - i);
    assert c[z] == m[if HEADER + i <= z < HEADER + n then z + 1 else z];
    assert f <= z < f + 8 * i ==> c[z + s] == m[z + s];
  }

  lemma CutStep2At(m: Key, n: nat, f: nat, s: nat, i: nat, data: bool, z: nat)
    requires i <= n && Spaced(n, f, s) && |m| >= End(n + 1, f + s, data) && z < |m|
    ensures CutStep2(m, n, f, s, i, data)[z] ==
            m[if f + 8 * i <= z < End(n, f, data) then z + s + WORD_SIZE else z]
  {
  }

  lemma CutChars(m: Key, n: nat, f: nat, s: nat, i: nat, data: bool, x: nat)
    requires i <= n && Spaced(n, f, s) && |m| >= End(n + 1, f + s, data) && x < n
    ensures Cut(m, n, f, s, i, data)[HEADER + x] == m[HEADER + if x < i then x else x + 1]
  {
    hide CutStep1, CutStep2;
    CutStep2At(CutStep1(m, n, f, s, i), n, f, s, i, data, HEADER + x);
    CutStep1At(m, n, f, s, i, HEADER + x);
  }

  /** Byte y of pointer j; the data pointer counts as one more pointer. */
  lemma CutPointers(m: Key, n: nat, f: nat, s: nat, i: nat, data: bool, j: nat, y: nat)
    requires i <= n && Spaced(n, f, s) && |m| >= End(n + 1, f + s, data) && y < WORD_SIZE
    requires j < if data then n + 1 else n
    ensures Cut(m, n, f, s, i, data)[f + 8 * j + y] == m[f + s + 8 * (if j < i then j else j + 1) + y]
  {
    hide CutStep1, CutStep2;
    var z := f + 8 * j + y;
    CutStep2At(CutStep1(m, n, f, s, i), n, f, s, i, data, z);
    CutStep1At(m, n, f, s, i, if j < i then z else z + s + WORD_SIZE);
  }

  lemma CutBlock(was: Key, m: Key, r: Key, chars: Key, ptrs: seq<Word>, data: Option<Word>, n: nat, f: nat, s: nat,
                 i: nat, j: nat)
    requires Layout(was, false, chars, ptrs, data) && i <= n && j < n && |chars| == n + 1 && Spaced(n, f, s) &&
             f + s == First(n + 1)
    requires |was| == End(n + 1, f + s, data.Some?) && was <= m
    requires |r| == End(n, f, data.Some?) && r <= Cut(m, n, f, s, i, data.Some?)
    ensures Block(r, f, j) == RemoveAt(ptrs, i)[j]
  {
    hide First, Cut, Spaced;
    var k := if j < i then j else j + 1;
    assert Block(was, f + s, k) == ptrs[k];
    forall y | 0 <= y < WORD_SIZE ensures Block(r, f, j)[y] == RemoveAt(ptrs, i)[j][y] {
      CutPointers(m, n, f, s, i, data.Some?, j, y);
      assert Block(was, f + s, k)[y] == was[f + s + 8 * k + y];
    }
  }

  /** What the steps make of a node: deletion from both arrays, the data kept. */
  lemma CutLayout(was: Key, m: Key, r: Key, chars: Key, ptrs: seq<Word>, data: Option<Word>, n: nat, f: nat, s: nat,
                  i: nat)
    requires Layout(was, false, chars, ptrs, data) && i <= n && |chars| == n + 1 && Spaced(n, f, s)
    requires f == First(n) && f + s == First(n + 1)
    requires |was| == End(n + 1, f + s, data.Some?) && was <= m
    requires |r| == End(n, f, data.Some?) && r <= Cut(m, n, f, s, i, data.Some?)
    ensures Layout(r, false, RemoveAt(chars, i), RemoveAt(ptrs, i), data)
  {
    hide First, Cut, Spaced;
    forall x | 0 <= x < n ensures r[HEADER + x] == RemoveAt(chars, i)[x] {
      CutChars(m, n, f, s, i, data.Some?, x);
      var k := if x < i then x else x + 1;
      assert was[HEADER + k] == was[HEADER..HEADER + n + 1][k];
    }
    forall j | 0 <= j < n ensures Block(r, f, j) == RemoveAt(ptrs, i)[j] {
      CutBlock(was, m, r, chars, ptrs, data, n, f, s, i, j);
    }
    if data.Some? {
      forall y | 0 <= y < WORD_SIZE ensures r[|r| - WORD_SIZE..][y] == data.value[y] {
        CutPointers(m, n, f, s, i, true, n, y);
        assert was[|was| - WORD_SIZE..][y] == data.value[y];
      }
    }
  }

  /** The sizes of a node before and after one more child. */
  lemma RoomFor(n: nat, data: bool)
    ensures Spaced(n, First(n), Shift(n)) && First(n + 1) == First(n) + Shift(n)
    ensures Length(n, false, data) == End(n, First(n), data) &&
            Length(n + 1, false, data) == End(n + 1, First(n + 1), data)
    ensures ShiftBack(n + 1) == Shift(n)
  {
    PaddingStep(n);
  }

  /** How far removing a character moves the pointers of a node with that many. */
  function ShiftBack(size: nat): nat {
    if (size + HEADER) % 8 == 1 then WORD_SIZE else 0
  }

  lemma PointerCount(m: Key, compr: bool, chars: Key, ptrs: seq<Word>, data: Option<Word>)
    requires Layout(m, compr, chars, ptrs, data)
    ensures |ptrs| == (if compr then 1 else |chars|) && |m| == Length(|chars|, compr, data.Some?)
  {
  }

  lemma InsertRemove<T>(s: seq<T>, p: nat, x: T)
    requires p <= |s|
    ensures RemoveAt(InsertAt(s, p, x), p) == s
  {
    var r := RemoveAt(InsertAt(s, p, x), p);
    forall i | 0 <= i < |s| ensures r[i] == s[i] {
      assert r[i] == InsertAt(s, p, x)[if i < p then i else i + 1];
    }
  }

  lemma InsertedOnce(ptrs: seq<Word>, p: nat, w: Word)
    requires p <= |ptrs| && w !in ptrs
    ensures w in InsertAt(ptrs, p, w)
    ensures forall k | 0 <= k < |InsertAt(ptrs, p, w)| && InsertAt(ptrs, p, w)[k] == w :: k == p
  {
    var r := InsertAt(ptrs, p, w);
    assert r[p] == w;
    forall k | 0 <= k < |r| && k != p ensures r[k] != w {
      assert r[k] == ptrs[if k < p then k else k - 1];
    }
  }

  // ---------------------------------------------------------------- the data pointer

  /** Without its data pointer a node holds the same edges. */
  lemma WithoutData(m: Key, compr: bool, chars: Key, ptrs: seq<Word>, data: Option<Word>)
    requires Layout(m, compr, chars, ptrs, data)
    ensures Length(|chars|, compr, false) <= |m| && Layout(m[..Length(|chars|, compr, false)], compr, chars, ptrs, None)
  {
    hide First;
    var n := Length(|chars|, compr, false);
    SliceTake(m, n, HEADER, HEADER + |chars|);
    forall i | 0 <= i < |ptrs| ensures Block(m[..n], First(|chars|), i) == ptrs[i] {
      assert Block(m, First(|chars|), i) == ptrs[i];
      SliceTake(m, n, First(|chars|) + 8 * i, First(|chars|) + 8 * i + WORD_SIZE);
    }
  }

  lemma SliceTake(m: Key, n: nat, a: nat, b: nat)
    requires a <= b <= n <= |m|
    ensures m[..n][a..b] == m[a..b]
  {
  }

  lemma SliceAppend(m: Key, w: Key, a: nat, b: nat)
    requires a <= b <= |m|
    ensures (m + w)[a..b] == m[a..b]
  {
  }

  /** A word stored behind the edges is the data pointer. */
  lemma DataBehind(m: Key, compr: bool, chars: Key, ptrs: seq<Word>, w: Word)
    requires Layout(m, compr, chars, ptrs, None)
    ensures Layout(m + w, compr, chars, ptrs, Some(w))
  {
    hide First;
    SliceAppend(m, w, HEADER, HEADER + |chars|);
    forall i | 0 <= i < |ptrs| ensures Block(m + w, First(|chars|), i) == ptrs[i] {
      assert Block(m, First(|chars|), i) == ptrs[i];
      SliceAppend(m, w, First(|chars|) + 8 * i, First(|chars|) + 8 * i + WORD_SIZE);
    }
  }

  lemma LengthWithData(size: nat, compr: bool)
    ensures Length(size, compr, true) == Length(size, compr, false) + WORD_SIZE
  {
  }

  lemma StoredBehind(m: Key, n: nat, w: Word)
    requires n + WORD_SIZE <= |m|
    ensures Stored(m, n, w)[..n + WORD_SIZE] == m[..n] + w
  {
  }

  /** The string and the pointer behind its padding make a compressed node. */
  lemma CompressedLayout(m: Key, l: Key, w: Word)
    requires |m| == Length(|l|, true, false) && m[HEADER..HEADER + |l|] == l && m[First(|l|)..] == w
    ensures Layout(m, true, l, [w], None)
  {
    assert Block(m, First(|l|), 0) == w;
  }

  lemma EmptyLayout(m: Key)
    requires |m| == First(0)
    ensures Layout(m, false, [], [], None)
  {
  }

  /** String, data and child have been written, in this order. */
  lemma CompressedBytes(m1: Key, m2: Key, m3: Key, l: Key, child: Word, data: Option<Word>)
    requires |m1| == |m2| == |m3| == Length(|l|, true, data.Some?) && m1[HEADER..HEADER + |l|] == l
    requires m2 == if data.Some? then Stored(m1, |m1| - WORD_SIZE, data.value) else m1
    requires m3 == Stored(m2, First(|l|), child)
    ensures Layout(m3, true, l, [child], data)
  {
    hide First, Stored, Layout;
    var f, n := First(|l|), First(|l|) + WORD_SIZE;
    var r := m3[..n];
    if data.Some? {
      StoredElsewhere(m1, |m1| - WORD_SIZE, data.value, HEADER, HEADER + |l|);
      StoredElsewhere(m2, f, child, n, |m2|);
      StoredHere(m1, |m1| - WORD_SIZE, data.value);
    }
    StoredElsewhere(m2, f, child, HEADER, HEADER + |l|);
    StoredHere(m2, f, child);
    assert r[HEADER..HEADER + |l|] == m3[HEADER..HEADER + |l|];
    assert r[f..] == m3[f..f + WORD_SIZE];
    CompressedLayout(r, l, child);
    if data.Some? {
      assert n == |m1| - WORD_SIZE && m3[n..] == m3[n..|m3|] == m2[n..|m2|] == data.value;
      assert m3 == r + m3[n..];
      DataBehind(r, true, l, [child], data.value);
    } else {
      assert m3 == r;
    }
  }

  lemma StoredHere(m: Key, at: nat, w: Key)
    requires at + |w| <= |m|
    ensures Stored(m, at, w)[at..at + |w|] == w
  {
  }

  lemma StoredElsewhere(m: Key, at: nat, w: Key, a: nat, b: nat)
    requires at + |w| <= |m| && a <= b <= |m| && (b <= at || at + |w| <= a)
    ensures Stored(m, at, w)[a..b] == m[a..b]
  {
  }

  /** What raxSetData leaves behind, n bytes of edges in front. */
  lemma SetBytes(was: Key, now: Key, n: nat, compr: bool, chars: Key, ptrs: seq<Word>, w: Option<Word>)
    requires n <= |was| && Layout(was[..n], compr, chars, ptrs, None) && (w.Some? ==> n + WORD_SIZE <= |was|)
    requires now == if w.Some? then Stored(was, n, w.value) else was
    ensures Layout(now[..n + if w.Some? then WORD_SIZE else 0], compr, chars, ptrs, w)
  {
    hide Layout, Stored;
    if w.Some? {
      StoredBehind(was, n, w.value);
      DataBehind(was[..n], compr, chars, ptrs, w.value);
    }
  }

  method Put(a: array<Byte>, at: nat, b: Byte)
    requires at < a.Length
    modifies a
    ensures a[..] == old(a[..])[at := b]
  {
    a[at] := b;
  }

  class RawNode {
    var iskey: bool
    var isnull: bool
    var iscompr: bool
    var size: nat
    var mem: array<Byte>

    /** The data pointer is stored unless it is NULL. */
    predicate HasData()
      reads this
    {
      iskey && !isnull
    }

    /** raxNodeCurrentLength. */
    function CurrentLength(): nat
      reads this
    {
      Length(size, iscompr, HasData())
    }

    /** The node in use; the allocated block may go on behind it. */
    function Used(): Key
      requires CurrentLength() <= mem.Length
      reads this, mem
    {
      mem[..CurrentLength()]
    }

    ghost predicate Holds(chars: Key, ptrs: seq<Word>, data: Option<Word>)
      reads this, mem
    {
      var fits := size == |chars| && HasData() == data.Some? && CurrentLength() <= mem.Length;
      fits && Layout(Used(), iscompr, chars, ptrs, data)
    }

    /** The bytes of the i-th pointer. */
    function PointerAt(i: nat): Word
      requires First(size) + 8 * i + WORD_SIZE <= CurrentLength() <= mem.Length
      reads this, mem
    {
      Block(Used(), First(size), i)
    }

    /** The scan for the insertion point. */
    method ScanPosition(c: Byte, ghost chars: Key) returns (pos: nat)
      requires size == |chars| && HEADER + size <= mem.Length && mem[HEADER..HEADER + size] == chars
      ensures pos == InsertPos(chars, c)
    {
      pos := 0;
      while pos < size && mem[HEADER + pos] <= c
        invariant pos <= size && InsertPos(chars, c) == pos + InsertPos(chars[pos..], c)
      {
        assert chars[pos..][1..] == chars[pos + 1..] && mem[HEADER + pos] == chars[pos];
        pos := pos + 1;
      }
      assert pos < size ==> mem[HEADER + pos] == chars[pos];
    }

    /** The data pointer goes to the new end. */
    method MoveData(n: nat, f: nat, s: nat)
      requires Spaced(n, f, s) && mem.Length == End(n + 1, f + s, HasData())
      modifies mem
      ensures mem[..] == AddStep1(old(mem[..]), n, f, s, HasData())
    {
      hide Moved;
      if HasData() {
        Memmove(mem, mem.Length - WORD_SIZE, End(n, f, true) - WORD_SIZE, WORD_SIZE);
      }
    }

    method MoveTail(pos: nat, n: nat, f: nat, s: nat)
      requires Spaced(n, f, s) && pos <= n && mem.Length >= End(n + 1, f + s, false)
      modifies mem
      ensures mem[..] == MovedRight(old(mem[..]), n, f, s, pos)
    {
      hide Moved;
      Memmove(mem, f + s + 8 * (pos + 1), f + 8 * pos, 8 * (n - pos));
    }

    /** The child pointers make room for one more character and one more pointer. */
    method MovePointers(pos: nat, n: nat, f: nat, s: nat)
      requires Spaced(n, f, s) && pos <= n && mem.Length >= End(n + 1, f + s, false)
      modifies mem
      ensures mem[..] == AddStep2(old(mem[..]), n, f, s, pos)
    {
      hide Moved, MovedRight;
      MoveTail(pos, n, f, s);
      if s > 0 {
        Memmove(mem, f + s, f, 8 * pos);
      }
    }

    /** Room for the character, the character and the pointer. */
    method PlaceChild(pos: nat, c: Byte, child: Word, n: nat, f: nat, s: nat)
      requires Spaced(n, f, s) && pos <= n && mem.Length >= End(n + 1, f + s, false)
      modifies mem
      ensures mem[..] == AddStep3(old(mem[..]), n, f, s, pos, c, child)
    {
      hide Moved, Stored;
      Memmove(mem, HEADER + pos + 1, HEADER + pos, n - pos);
      Put(mem, HEADER + pos, c);
      Store(mem, f + s + 8 * pos, child);
    }

    /** The moves of raxAddChild in the enlarged node, whose pointers go from f to f + s. */
    method MakeRoom(pos: nat, c: Byte, child: Word, n: nat, f: nat, s: nat)
      requires Spaced(n, f, s) && pos <= n == size && mem.Length == End(n + 1, f + s, HasData())
      modifies this`size, mem
      ensures size == n + 1 && mem[..] == Added(old(mem[..]), n, f, s, pos, c, child, HasData())
    {
      hide AddStep1, AddStep2, AddStep3, Spaced;
      MoveData(n, f, s);
      MovePointers(pos, n, f, s);
      PlaceChild(pos, c, child, n, f, s);
      size := n + 1;
    }

    /** raxAddChild: one more edge c to the given child. */
    method AddChild(c: Byte, child: Word, ghost chars: Key, ghost ptrs: seq<Word>, ghost data: Option<Word>)
      returns (pos: nat)
      requires Holds(chars, ptrs, data) && !iscompr
      modifies this`size, this`mem
      ensures pos == InsertPos(chars, c) && !iscompr && fresh(mem)
      ensures Holds(InsertAt(chars, pos, c), InsertAt(ptrs, pos, child), data)
    {
      ghost var was := Used();
      var n := size;
      RoomFor(n, HasData());
      PointerCount(was, false, chars, ptrs, data);
      var f, curlen, newlen := First(n), Length(n, false, HasData()), Length(n + 1, false, HasData());
      var shift := newlen - curlen - WORD_SIZE;
      assert shift == Shift(n) && was[HEADER..HEADER + n] == chars;
      hide Layout, First, InsertPos, Added, Shift, Spaced, Length, End;
      ghost var m;
      pos, m := InsertChild(c, child, n, f, shift, curlen, newlen, chars);
      AddedLayout(was, m, chars, ptrs, data, f, shift, c, child);
      assert mem[..] == mem[..newlen];
    }

    /** The enlarged node m, and in it the new child. */
    method InsertChild(c: Byte, child: Word, n: nat, f: nat, s: nat, curlen: nat, newlen: nat, ghost chars: Key)
      returns (pos: nat, ghost m: Key)
      requires size == n == |chars| && HEADER + n <= curlen <= newlen && curlen <= mem.Length
      requires mem[..curlen][HEADER..HEADER + n] == chars && Spaced(n, f, s) && newlen == End(n + 1, f + s, HasData())
      modifies this`size, this`mem
      ensures fresh(mem) && mem.Length == newlen == |m| && size == n + 1 && old(mem[..curlen]) <= m &&
              pos == InsertPos(chars, c)
      ensures mem[..] == Added(m, n, f, s, pos, c, child, HasData())
    {
      hide InsertPos, Added, Spaced, End;
      pos := Prepare(c, n, curlen, newlen, chars);
      m := mem[..];
      MakeRoom(pos, c, child, n, f, s);
    }

    /** The enlarged node, and where the new child goes. */
    method Prepare(c: Byte, n: nat, curlen: nat, newlen: nat, ghost chars: Key) returns (pos: nat)
      requires size == n == |chars| && HEADER + n <= curlen <= newlen && curlen <= mem.Length
      requires mem[..curlen][HEADER..HEADER + n] == chars
      modifies this`mem
      ensures fresh(mem) && mem.Length == newlen && old(mem[..curlen]) <= mem[..] && pos == InsertPos(chars, c)
    {
      hide InsertPos;
      ghost var was := mem[..curlen];
      Resize(curlen, newlen);
      assert mem[..][HEADER..HEADER + n] == was[HEADER..HEADER + n];
      pos := ScanPosition(c, chars);
    }

    /** The scan for the pointer to the child. */
    method ScanPointer(child: Word, ghost chars: Key, ghost ptrs: seq<Word>, ghost data: Option<Word>) returns (i: nat)
      requires Holds(chars, ptrs, data) && !iscompr && child in ptrs
      ensures i < |ptrs| && ptrs[i] == child && forall x | 0 <= x < i :: ptrs[x] != child
    {
      hide First;
      ghost var last: nat :| last < |ptrs| && ptrs[last] == child;
      i := 0;
      while true
        invariant i <= last && forall x | 0 <= x < i :: ptrs[x] != child
        decreases last - i
      {
        assert Block(Used(), First(size), i) == ptrs[i];
        if PointerAt(i) == child { return; }
        i := i + 1;
      }
    }

    /** The characters, and the pointers before the one that goes. */
    method CloseFront(i: nat, n: nat, f: nat, s: nat)
      requires size == n + 1 && i <= n && Spaced(n, f, s) && mem.Length >= End(n + 1, f + s, false)
      modifies mem
      ensures mem[..] == CutStep1(old(mem[..]), n, f, s, i)
    {
      hide Moved;
      Memmove(mem, HEADER + i, HEADER + i + 1, n - i);
      if s > 0 {
        Memmove(mem, f, f + s, 8 * i);
      }
    }

    /** The pointers behind it and the data pointer. */
    method CloseBack(i: nat, n: nat, f: nat, s: nat)
      requires size == n + 1 && i <= n && Spaced(n, f, s) && mem.Length >= End(n + 1, f + s, HasData())
      modifies mem
      ensures mem[..] == CutStep2(old(mem[..]), n, f, s, i, HasData())
    {
      hide *;
      CutRoom(n, f, s, i, HasData());
      ghost var m, data := mem[..], HasData();
      CutBack(m, n, f, s, i, data);
      var dst, src, len := f + 8 * i, f + s + 8 * (i + 1), TailLength(n, i, HasData());
      Memmove(mem, dst, src, len);
    }

    /** The moves of raxRemoveChild; f + s is where the pointers start, f where they will. */
    method CloseGap(i: nat, n: nat, f: nat, s: nat)
      requires size == n + 1 && i <= n && Spaced(n, f, s) && mem.Length >= End(n + 1, f + s, HasData())
      modifies mem
      ensures mem[..] == Cut(old(mem[..]), n, f, s, i, HasData())
    {
      hide CutStep1, CutStep2, Spaced;
      CloseFront(i, n, f, s);
      CloseBack(i, n, f, s);
    }

    /** Child c goes. */
    method CutChild(c: nat, ghost chars: Key, ghost ptrs: seq<Word>, ghost data: Option<Word>)
      requires Holds(chars, ptrs, data) && !iscompr && c < |ptrs|
      modifies this`size, this`mem, mem
      ensures |ptrs| == |chars| && !iscompr && fresh(mem) && Holds(RemoveAt(chars, c), RemoveAt(ptrs, c), data)
    {
      ghost var was, m := Used(), mem[..];
      PointerCount(was, false, chars, ptrs, data);
      var n := size - 1;
      RoomFor(n, HasData());
      var shift := ShiftBack(size);
      var f := First(size) - shift;
      var newlen := Length(n, false, HasData());
      assert HasData() == data.Some?;
      hide First, Cut, Shift, Spaced, ShiftBack, Length, Layout, End, Holds;
      CloseGap(c, n, f, shift);
      size := n;
      Shrink(newlen);
      CutLayout(was, m, mem[..], chars, ptrs, data, n, f, shift, c);
      assert mem[..] == mem[..][..newlen];
      HoldsBytes(RemoveAt(chars, c), RemoveAt(ptrs, c), data);
    }

    /** raxGetData. */
    method GetData(ghost chars: Key, ghost ptrs: seq<Word>, ghost data: Option<Word>) returns (w: Option<Word>)
      requires Holds(chars, ptrs, data) && iskey
      ensures w == data
    {
      hide First;
      if isnull { return None; }
      w := Some(mem[CurrentLength() - WORD_SIZE..CurrentLength()]);
      assert Used()[|Used()| - WORD_SIZE..] == w.value;
    }

    /** The block without the data pointer at its end. */
    lemma HeldWithoutData(chars: Key, ptrs: seq<Word>, data: Option<Word>)
      requires Holds(chars, ptrs, data)
      ensures size == |chars| && Length(size, iscompr, false) <= mem.Length
      ensures Layout(mem[..][..Length(size, iscompr, false)], iscompr, chars, ptrs, None)
      ensures Length(size, iscompr, true) == Length(size, iscompr, false) + WORD_SIZE
    {
      WithoutData(Used(), iscompr, chars, ptrs, data);
      LengthWithData(size, iscompr);
      hide Layout, Length;
      assert mem[..][..Length(size, iscompr, false)] == Used()[..Length(size, iscompr, false)];
    }

    lemma HoldsBytes(chars: Key, ptrs: seq<Word>, data: Option<Word>)
      requires size == |chars| && HasData() == data.Some? && Length(size, iscompr, data.Some?) <= mem.Length
      requires Layout(mem[..][..Length(size, iscompr, data.Some?)], iscompr, chars, ptrs, data)
      ensures Holds(chars, ptrs, data)
    {
      hide Layout, Length;
      assert Used() == mem[..][..CurrentLength()];
    }

    /** raxSetData: NULL is a flag, any other pointer goes to the end of the node. */
    method SetData(w: Option<Word>, ghost chars: Key, ghost ptrs: seq<Word>, ghost data: Option<Word>)
      requires Holds(chars, ptrs, data) && (w.Some? ==> Length(size, iscompr, true) <= mem.Length)
      modifies this`iskey, this`isnull, mem
      ensures Holds(chars, ptrs, w) && iskey
    {
      hide Layout, Stored, Length, Holds;
      HeldWithoutData(chars, ptrs, data);
      ghost var n, m := Length(size, iscompr, false), mem[..];
      iskey, isnull := true, w.None?;
      if w.Some? {
        Store(mem, CurrentLength() - WORD_SIZE, w.value);
      }
      SetBytes(m, mem[..], n, iscompr, chars, ptrs, w);
      HoldsBytes(chars, ptrs, w);
    }

    /** raxReallocForData. */
    method ReallocForData(w: Option<Word>, ghost chars: Key, ghost ptrs: seq<Word>, ghost data: Option<Word>)
      requires Holds(chars, ptrs, data)
      modifies this`mem
      ensures Holds(chars, ptrs, data) && (mem == old(mem) || fresh(mem))
      ensures w.Some? ==> Length(size, iscompr, true) <= mem.Length
    {
      hide Layout, First;
      if w.None? { return; }
      ghost var was := Used();
      Resize(CurrentLength(), CurrentLength() + WORD_SIZE);
      assert Used() == was;
    }

    /** The node of a key that is inserted where a node stands already: it becomes a key, or its
        data is replaced if the caller wants that. */
    method InsertHere(w: Option<Word>, overwrite: bool, ghost chars: Key, ghost ptrs: seq<Word>,
                      ghost data: Option<Word>)
      returns (inserted: bool, old_data: Option<Word>)
      requires Holds(chars, ptrs, data)
      modifies this`iskey, this`isnull, this`mem, mem
      ensures inserted == !old(iskey) && iskey
      ensures !inserted ==> old_data == data
      ensures Holds(chars, ptrs, if inserted || overwrite then w else data)
    {
      hide Layout;
      old_data := None;
      if !iskey || (isnull && overwrite) {
        ReallocForData(w, chars, ptrs, data);
      }
      if iskey {
        old_data := GetData(chars, ptrs, data);
        if overwrite { SetData(w, chars, ptrs, data); }
        return false, old_data;
      }
      SetData(w, chars, ptrs, data);
      return true, None;
    }

    /** raxRemove takes the key away and leaves the block as it is. */
    method ClearKey(ghost chars: Key, ghost ptrs: seq<Word>, ghost data: Option<Word>)
      requires Holds(chars, ptrs, data)
      modifies this`iskey
      ensures Holds(chars, ptrs, None) && !iskey
    {
      WithoutData(Used(), iscompr, chars, ptrs, data);
      hide Layout, First;
      ghost var n := Length(size, iscompr, false);
      assert Used()[..n] == mem[..n];
      iskey := false;
    }

    /** The edges of a node without any, once the string and the pointer have been written. */
    method WriteString(l: Key)
      requires HEADER + |l| <= mem.Length
      modifies mem
      ensures mem[..][HEADER..HEADER + |l|] == l
    {
      forall i | 0 <= i < |l| {
        mem[HEADER + i] := l[i];
      }
    }

    /** raxCompressNode: a leaf, a key or not, gets a string and a child behind it. The data is
        saved before and set again behind the pointer. */
    method CompressNode(l: Key, child: Word, ghost data: Option<Word>)
      requires Holds([], [], data) && !iscompr && l != []
      modifies this
      ensures Holds(l, [child], data) && iscompr && iskey == old(iskey) && fresh(mem)
    {
      hide Layout, Stored, First;
      var saved := None;
      if iskey { saved := GetData([], [], data); }
      Resize(0, Length(|l|, true, HasData()));
      iscompr, size := true, |l|;
      WriteString(l);
      ghost var m1 := mem[..];
      if iskey && saved.Some? { Store(mem, CurrentLength() - WORD_SIZE, saved.value); }
      ghost var m2 := mem[..];
      Store(mem, CurrentLength() - WORD_SIZE - (if HasData() then WORD_SIZE else 0), child);
      CompressedBytes(m1, m2, mem[..], l, child, saved);
      assert mem[..] == mem[..CurrentLength()];
    }

    /** The branch of raxRemoveChild for compressed nodes: the string goes, the data moves to the
        front and the block stays. */
    method RemoveOnly(ghost chars: Key, ghost ptrs: seq<Word>, ghost data: Option<Word>)
      requires Holds(chars, ptrs, data) && iscompr
      modifies this`iscompr, this`size, this`isnull, mem
      ensures Holds([], [], data) && !iscompr
    {
      hide Layout, Stored;
      var saved := None;
      if iskey { saved := GetData(chars, ptrs, data); }
      isnull, iscompr, size := false, false, 0;
      ghost var m := mem[..];
      if iskey {
        if saved.Some? {
          Store(mem, CurrentLength() - WORD_SIZE, saved.value);
          StoredBehind(m, First(0), saved.value);
        } else {
          isnull := true;
        }
      }
      EmptyLayout(m[..First(0)]);
      if saved.Some? { DataBehind(m[..First(0)], false, [], [], saved.value); }
    }

    /** raxRemoveChild. */
    method RemoveChild(child: Word, ghost chars: Key, ghost ptrs: seq<Word>, ghost data: Option<Word>)
      returns (ghost i: nat)
      requires Holds(chars, ptrs, data) && child in ptrs
      modifies this`iscompr, this`isnull, this`size, this`mem, mem
      ensures i < |ptrs| && ptrs[i] == child && (forall x | 0 <= x < i :: ptrs[x] != child)
      ensures !iscompr && (mem == old(mem) || fresh(mem)) && (!old(iscompr) ==> |ptrs| == |chars|)
      ensures Holds(if old(iscompr) then [] else RemoveAt(chars, i), RemoveAt(ptrs, i), data)
      ensures !old(iscompr) ==> iskey == old(iskey) && isnull == old(isnull) && fresh(mem)
    {
      PointerCount(Used(), iscompr, chars, ptrs, data);
      hide Layout;
      if iscompr {
        RemoveOnly(chars, ptrs, data);
        i := 0;
        assert RemoveAt(ptrs, 0) == [];
      } else {
        var c := ScanPointer(child, chars, ptrs, data);
        CutChild(c, chars, ptrs, data);
        i := c;
      }
    }

    /** Give back the bytes behind the new end. */
    method Shrink(len: nat)
      requires len <= mem.Length
      modifies this`mem
      ensures fresh(mem) && mem.Length == len && mem[..] <= old(mem[..])
    {
      ghost var m := mem[..];
      mem := Realloc(mem, len);
      assert mem[..] == m[..len];
    }

    /** Make the block as long as the node is going to be. */
    method Resize(curlen: nat, len: nat)
      requires curlen <= mem.Length && curlen <= len
      modifies this`mem
      ensures fresh(mem) && mem.Length == len && old(mem[..curlen]) <= mem[..]
    {
      ghost var m := mem[..curlen];
      mem := Realloc(mem, len);
      assert mem[..][..|m|] == m;
    }

    /** Adding a child that the node does not link to and removing it again restores what the
        node holds. */
    method AddAndRemove(c: Byte, child: Word, ghost chars: Key, ghost ptrs: seq<Word>, ghost data: Option<Word>)
      requires Holds(chars, ptrs, data) && !iscompr && child !in ptrs
      modifies this`size, this`mem, this`iscompr, this`isnull
      ensures Holds(chars, ptrs, data) && !iscompr
    {
      hide InsertPos;
      PointerCount(Used(), iscompr, chars, ptrs, data);
      hide Layout;
      var pos := AddChild(c, child, chars, ptrs, data);
      InsertedOnce(ptrs, pos, child);
      ghost var i := RemoveChild(child, InsertAt(chars, pos, c), InsertAt(ptrs, pos, child), data);
      InsertRemove(chars, pos, c);
      InsertRemove(ptrs, pos, child);
    }
  }
}
