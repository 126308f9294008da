/** The bytes of a node and the node object of the tree side by side: the same edits keep the
    bytes an encoding of the object. */
module RaxNodeObjects {
  import opened Wrappers
  import opened Bytes
  import opened RaxTree
  import opened RaxEdit
  import opened RaxHeap
  import opened RaxNodeBytes

  function Addresses(kids: seq<RaxNode>, addr: RaxNode -> Word): (ws: seq<Word>)
    ensures |ws| == |kids| && forall i | 0 <= i < |kids| :: ws[i] == addr(kids[i])
  {
    seq(|kids|, i requires 0 <= i < |kids| => addr(kids[i]))
  }

  /** NULL is not stored. */
  function DataWord(val: Option<Ptr>, word: Ptr -> Word): Option<Word> {
    if val.None? || val == Some(0) then None else Some(word(val.value))
  }

  /** The bytes hold the characters of the object, the addresses of its children in the same
      order, and its data; the flags say whether it is a key and whether the data is NULL. */
  ghost predicate Encodes(raw: RawNode, h: RaxNode, addr: RaxNode -> Word, word: Ptr -> Word)
    reads raw, raw.mem, h
  {
    && raw.iscompr == h.compr && raw.iskey == h.val.Some? && (raw.iskey ==> raw.isnull == (h.val == Some(0)))
    && raw.Holds(h.chars, Addresses(h.kids, addr), DataWord(h.val, word))
  }

  lemma AddressesInsert(kids: seq<RaxNode>, pos: nat, child: RaxNode, addr: RaxNode -> Word)
    requires pos <= |kids|
    ensures Addresses(InsertAt(kids, pos, child), addr) == InsertAt(Addresses(kids, addr), pos, addr(child))
  {
  }

  lemma AddressesRemove(kids: seq<RaxNode>, pos: nat, addr: RaxNode -> Word)
    requires pos < |kids|
    ensures Addresses(RemoveAt(kids, pos), addr) == RemoveAt(Addresses(kids, addr), pos)
  {
  }

  /** raxAddChild on both. */
  method AddChildTo(raw: RawNode, h: RaxNode, c: Byte, child: RaxNode, w: Word,
                    ghost addr: RaxNode -> Word, ghost word: Ptr -> Word)
    returns (pos: nat)
    requires Encodes(raw, h, addr, word) && !h.compr && w == addr(child)
    modifies raw, h`chars, h`kids
    ensures Encodes(raw, h, addr, word) && pos == InsertPos(old(h.chars), c) <= |old(h.kids)|
    ensures h.chars == InsertAt(old(h.chars), pos, c) && h.kids == InsertAt(old(h.kids), pos, child)
  {
    hide InsertPos, InsertAt;
    PointerCount(raw.Used(), false, h.chars, Addresses(h.kids, addr), DataWord(h.val, word));
    pos := raw.AddChild(c, w, h.chars, Addresses(h.kids, addr), DataWord(h.val, word));
    AddressesInsert(h.kids, pos, child, addr);
    h.chars, h.kids := InsertAt(h.chars, pos, c), InsertAt(h.kids, pos, child);
  }

  /** The object has the parallel arrays, or the single child, of its bytes. */
  lemma EncodedShape(raw: RawNode, h: RaxNode, addr: RaxNode -> Word, word: Ptr -> Word)
    requires Encodes(raw, h, addr, word)
    ensures |h.kids| == if h.compr then 1 else |h.chars|
  {
    PointerCount(raw.Used(), h.compr, h.chars, Addresses(h.kids, addr), DataWord(h.val, word));
  }

  /** The first pointer to the child is its first link. */
  lemma SameIndex(kids: seq<RaxNode>, child: RaxNode, i: nat, j: nat, addr: RaxNode -> Word)
    requires forall x, y | x in kids && y in kids && addr(x) == addr(y) :: x == y
    requires i < |kids| && kids[i] == child && child !in kids[..i]
    requires j < |kids| && addr(kids[j]) == addr(child) && forall x | 0 <= x < j :: addr(kids[x]) != addr(child)
    ensures i == j
  {
  }

  /** raxRemoveChild on the bytes: the pointer found is the link to the child. */
  method RemovePointer(raw: RawNode, h: RaxNode, child: RaxNode, w: Word,
                       ghost addr: RaxNode -> Word, ghost word: Ptr -> Word)
    returns (i: nat)
    requires Encodes(raw, h, addr, word) && child in h.kids && w == addr(child)
    requires forall x, y | x in h.kids && y in h.kids && addr(x) == addr(y) :: x == y
    modifies raw, raw.mem
    ensures i < |h.kids| && h.kids[i] == child && child !in h.kids[..i] && (!h.compr ==> i < |h.chars|)
    ensures !raw.iscompr && raw.iskey == h.val.Some?
    ensures raw.Holds(if h.compr then [] else RemoveAt(h.chars, i), RemoveAt(Addresses(h.kids, addr), i),
                      DataWord(h.val, word))
  {
    EncodedShape(raw, h, addr, word);
    ghost var ptrs, data := Addresses(h.kids, addr), DataWord(h.val, word);
    hide RemoveAt, raw.Holds;
    i := FindLink(h, child);
    assert ptrs[i] == w;
    ghost var j := raw.RemoveChild(w, h.chars, ptrs, data);
    SameIndex(h.kids, child, i, j, addr);
  }

  /** raxRemoveChild on both. */
  method RemoveChildOf(raw: RawNode, h: RaxNode, child: RaxNode, w: Word,
                       ghost addr: RaxNode -> Word, ghost word: Ptr -> Word)
    returns (i: nat)
    requires Encodes(raw, h, addr, word) && child in h.kids && w == addr(child)
    requires forall x, y | x in h.kids && y in h.kids && addr(x) == addr(y) :: x == y
    modifies raw, raw.mem, h`compr, h`chars, h`kids
    ensures Encodes(raw, h, addr, word) && !h.compr
    ensures i < |old(h.kids)| && old(h.kids)[i] == child && child !in old(h.kids)[..i]
    ensures h.kids == RemoveAt(old(h.kids), i)
    ensures !old(h.compr) ==> i < |old(h.chars)| && h.chars == RemoveAt(old(h.chars), i)
    ensures old(h.compr) ==> h.chars == []
  {
    hide *;
    EncodedShape(raw, h, addr, word);
    i := RemovePointer(raw, h, child, w, addr, word);
    AddressesRemove(h.kids, i, addr);
    if h.compr {
      RemoveOnlyKid(h.kids);
      h.compr, h.chars, h.kids := false, [], [];
    } else {
      h.chars, h.kids := RemoveAt(h.chars, i), RemoveAt(h.kids, i);
    }
    HoldsObject(raw, h, addr, word);
  }

  lemma HoldsObject(raw: RawNode, h: RaxNode, addr: RaxNode -> Word, word: Ptr -> Word)
    requires raw.iscompr == h.compr && raw.iskey == h.val.Some?
    requires raw.Holds(h.chars, Addresses(h.kids, addr), DataWord(h.val, word))
    ensures Encodes(raw, h, addr, word)
  {
    hide Layout, Length;
  }

  lemma RemoveOnlyKid(kids: seq<RaxNode>)
    requires |kids| == 1
    ensures RemoveAt(kids, 0) == []
  {
  }

  /** raxSetData on both, where the block has room for a data pointer. */
  method SetDataOf(raw: RawNode, h: RaxNode, data: Ptr, w: Option<Word>,
                   ghost addr: RaxNode -> Word, ghost word: Ptr -> Word)
    requires Encodes(raw, h, addr, word) && w == DataWord(Some(data), word)
    requires w.Some? ==> Length(raw.size, raw.iscompr, true) <= raw.mem.Length
    modifies raw, raw.mem, h`val
    ensures Encodes(raw, h, addr, word) && h.val == Some(data)
  {
    raw.SetData(w, h.chars, Addresses(h.kids, addr), DataWord(h.val, word));
    h.val := Some(data);
  }

  /** raxCompressNode on both. */
  method CompressNodeOf(raw: RawNode, h: RaxNode, l: Key, child: RaxNode, w: Word,
                        ghost addr: RaxNode -> Word, ghost word: Ptr -> Word)
    requires Encodes(raw, h, addr, word) && !h.compr && h.chars == [] && h.kids == [] && l != [] && w == addr(child)
    modifies raw, h`compr, h`chars, h`kids
    ensures Encodes(raw, h, addr, word) && h.compr && h.chars == l && h.kids == [child]
  {
    raw.CompressNode(l, w, DataWord(h.val, word));
    h.compr, h.chars, h.kids := true, l, [child];
    assert Addresses(h.kids, addr) == [w];
  }
}
