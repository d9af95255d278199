/** mf_vector<T, B, N>: a vector that stores its elements in blocks of B cells
    and keeps a growable index of pointers to those blocks, followed by one
    sentinel entry so that end() has a block to point into when the last block
    is full. Blocks are added at the end and released from the end; an
    existing block is never moved, so elements never change their address
    while the vector grows. */
module MfVectors {
  import opened Defines
  import opened MfvIterator

  /** The block index after Shrink: the blocks that hold the first `size`
      cells, then the sentinel. */
  function Shrunk<T>(index: seq<Slot<T>>, size: nat, B: nat): (r: seq<Slot<T>>)
    requires B > 0 && Ceiling(size, B) < |index|
    ensures |r| == Ceiling(size, B) + 1 && r[|r| - 1] == Sentinel
  {
    index[..Ceiling(size, B)] + [Sentinel]
  }

  /** The shape of an mf_vector's storage: every index entry but the last is
      a distinct block of B cells from `blocks`, the last is the sentinel, and
      `cells` lists the blocks' cells in index order. */
  ghost predicate Layout<T>(index: seq<Slot<T>>, cells: seq<T>, B: nat, blocks: set<array<T>>)
    reads blocks
  {
    && B > 0
    && |index| >= 1 && index[|index| - 1] == Sentinel
    && (forall j :: 0 <= j < |index| - 1 ==>
          index[j].Block? && index[j].cells.Length == B && index[j].cells in blocks)
    && Distinct(index)
    && |cells| == (|index| - 1) * B
    && (forall k :: 0 <= k < |cells| ==> Stored(index, cells, B, blocks, k))
  }

  /** Cell k of `cells` is cell k % B of block k / B. */
  ghost predicate Stored<T>(index: seq<Slot<T>>, cells: seq<T>, B: nat, blocks: set<array<T>>, k: int)
    reads blocks
    requires B > 0
  {
    && 0 <= k < |cells| && 0 <= k / B < |index|
    && index[k / B].Block? && index[k / B].cells in blocks
    && index[k / B].cells.Length == B
    && cells[k] == index[k / B].cells[k % B]
  }

  /** Appending a fresh block of B cells before the sentinel extends the
      layout by that block's cells. */
  lemma LayoutAppend<T>(index: seq<Slot<T>>, cells: seq<T>, B: nat, blocks: set<array<T>>, b: array<T>)
    requires Layout(index, cells, B, blocks) && b !in blocks && b.Length == B
    ensures Layout((index + [Sentinel])[|index| - 1 := Block(b)], cells + b[..], B, blocks + {b})
  {
    var nb := |index| - 1;
    var index', cells' := (index + [Sentinel])[nb := Block(b)], cells + b[..];
    assert (nb + 1) * B == nb * B + B;
    forall k | 0 <= k < |cells'|
      ensures Stored(index', cells', B, blocks + {b}, k)
    {
      if k < nb * B {
        assert Stored(index, cells, B, blocks, k);
      } else {
        DivModUnique(k, B, nb, k - nb * B);
      }
    }
  }

  /** Releasing the last block and moving the sentinel down one slot drops
      that block's cells from the layout. */
  lemma LayoutDrop<T>(index: seq<Slot<T>>, cells: seq<T>, B: nat, blocks: set<array<T>>)
    requires Layout(index, cells, B, blocks) && |index| >= 2
    ensures |cells| >= B
    ensures Layout(index[..|index| - 2] + [Sentinel], cells[..|cells| - B], B,
                   blocks - {index[|index| - 2].cells})
  {
    var nb := |index| - 1;
    var index', cells' := index[..nb - 1] + [Sentinel], cells[..|cells| - B];
    var blocks' := blocks - {index[nb - 1].cells};
    assert (nb - 1) * B == nb * B - B;
    forall k | 0 <= k < |cells'|
      ensures Stored(index', cells', B, blocks', k)
    {
      assert Stored(index, cells, B, blocks, k);
      DivBounds(k, nb - 1, B);
    }
  }

  /** erase(first, last) as written returns `first`, made before Shrink.
      With blocks of one cell and one element, erase(begin(), end()) leaves
      no elements, Shrink deletes the only block, and `first` still names
      that block: it is not attached to the remaining index, and it is not
      end(), which the returned iterator should be. */
  lemma EraseAsWrittenDangles<T>(b: array<T>)
    ensures var index := [Block(b), Sentinel];
            var first := Iter(0, Block(b), 0);
            && Ceiling(0, 1) < |index|
            && Shrunk(index, 0, 1) == [Sentinel]
            && !Attached(first, Shrunk(index, 0, 1))
            && !Eq(first, IterAt(Shrunk(index, 0, 1), 1, 0))
  {
    CeilingUnique(0, 1, 0);
  }

  class MfVector<T(0)> {
    /** BlockSize: the number of cells in every block. */
    const B: nat
    /** _blocks: the block index. */
    var index: seq<Slot<T>>
    /** _blocks.capacity(): the number of index entries allocated. */
    var indexCap: nat
    /** _size. */
    var size: nat
    /** The cells of the real blocks, block after block. */
    ghost var cells: seq<T>
    /** The real blocks. */
    ghost var Repr: set<array<T>>

    /** The block layout holds, the size fits in the cells, and the index
        fits in its allocation. */
    ghost predicate Storage()
      reads this, Repr
    {
      Layout(index, cells, B, Repr) && size <= |cells| && |index| <= indexCap
    }

    /** Between operations there are exactly as many blocks as the elements
        need: QuotientRoundedUp(size, B) + 1 == _blocks.size(). */
    ghost predicate Valid()
      reads this, Repr
    {
      Storage() && |index| == Ceiling(size, B) + 1
    }

    /** The elements, begin() to end(). */
    ghost function Contents(): seq<T>
      reads this, Repr
      requires Storage()
    {
      cells[..size]
    }

    /** An iterator this vector can hand out: into the current index, in
        block form, between begin() and end(). */
    ghost predicate ValidIter(it: Iter<T>)
      reads this, Repr
      requires Storage()
    {
      Attached(it, index) && InBlock(it, B) && 0 <= Pos(it, B) <= size
    }

    lemma CellAt(i: nat)
      requires Storage() && i < |cells|
      ensures i / B < |index| - 1 && index[i / B].Block? && index[i / B].cells.Length == B
      ensures index[i / B].cells in Repr
      ensures 0 <= i % B < B && cells[i] == index[i / B].cells[i % B]
    {
      assert Stored(index, cells, B, Repr, i);
    }

    lemma Span()
      requires Storage()
      ensures size <= |cells| < |index| * B
    {
      assert |index| * B == (|index| - 1) * B + B;
    }

    /** Blocks for Ceiling(n, B) elements hold n cells. */
    lemma RoomFor(n: nat)
      requires Storage() && Ceiling(n, B) <= |index| - 1
      ensures n <= |cells|
    {
      CeilingCovers(n, B, |index| - 1);
    }

    /** An attached iterator in block form at a cell position points into the
        block holding that cell. */
    lemma IterCell(it: Iter<T>)
      requires Storage() && Attached(it, index) && InBlock(it, B)
      requires 0 <= Pos(it, B) < |cells|
      ensures it.block.Block? && it.block.cells in Repr && it.block.cells.Length == B
      ensures it.block.cells[it.offset] == cells[Pos(it, B)]
      ensures it.slot == Pos(it, B) / B && it.offset == Pos(it, B) % B
    {
      var p := Pos(it, B);
      CellAt(p);
      PosDetermines(it, IterAt(index, B, p), B, index);
    }

    /** operator* on an iterator of this vector. */
    function Deref(it: Iter<T>): (x: T)
      reads this, Repr
      requires Storage() && Attached(it, index) && InBlock(it, B)
      requires 0 <= Pos(it, B) < |cells|
      ensures x == cells[Pos(it, B)]
    {
      IterCell(it);
      it.block.cells[it.offset]
    }

    /** Writing a value through an iterator (placement new or move assignment
        at `it.operator->()`): one cell changes, nothing else. */
    method Store(it: Iter<T>, x: T)
      requires Storage() && Attached(it, index) && InBlock(it, B)
      requires 0 <= Pos(it, B) < |cells|
      modifies this`cells, Repr
      ensures Storage() && cells == old(cells)[Pos(it, B) := x]
    {
      var p := Pos(it, B);
      IterCell(it);
      var a := it.block.cells;
      a[it.offset] := x;
      cells := cells[p := x];
      forall k | 0 <= k < |cells|
        ensures Stored(index, cells, B, Repr, k)
      {
        assert old(Stored(index, cells, B, Repr, k));
        if k != p {
          DivMod(k, B);
          DivMod(p, B);
          assert k / B != p / B ==> index[k / B] != index[p / B];
        }
      }
    }

    /** One round of Grow's loop: a fresh block of B cells goes in just
        before the sentinel, and a full index doubles its allocation. */
    method AppendBlock()
      requires Storage()
      modifies this
      ensures Storage() && size == old(size) && indexCap >= old(indexCap)
      ensures |index| == old(|index|) + 1 && |cells| == old(|cells|) + B
      ensures index[..old(|index|) - 1] == old(index[..|index| - 1])
      ensures cells[..old(|cells|)] == old(cells)
      ensures old(Repr) <= Repr && fresh(Repr - old(Repr))
    {
      var b := new T[B];
      LayoutAppend(index, cells, B, Repr, b);
      index := index + [index[|index| - 1]];
      index := index[|index| - 2 := Block(b)];
      if indexCap < |index| {
        indexCap := 2 * indexCap;
      }
      cells := cells + b[..];
      Repr := Repr + {b};
    }

    /** Grow(newSize): append fresh blocks until there are cells for newSize
        elements. Each new block pointer goes in just before the sentinel,
        and a full index doubles its allocation as std::vector::push_back
        does. Existing blocks stay where they are. */
    method Grow(newSize: nat)
      requires Storage()
      modifies this
      ensures Storage() && size == old(size) && indexCap >= old(indexCap)
      ensures |index| - 1 == Max(old(|index|) - 1, Ceiling(newSize, B))
      ensures index[..old(|index|) - 1] == old(index[..|index| - 1])
      ensures old(|cells|) <= |cells| && cells[..old(|cells|)] == old(cells)
      ensures old(Repr) <= Repr && fresh(Repr - old(Repr))
    {
      while (|index| - 1) * B < newSize
        invariant Storage() && size == old(size) && indexCap >= old(indexCap)
        invariant old(|index|) <= |index|
        invariant index[..old(|index|) - 1] == old(index[..|index| - 1])
        invariant cells[..old(|cells|)] == old(cells)
        invariant old(Repr) <= Repr && fresh(Repr - old(Repr))
        invariant old(|index|) < |index| ==> (|index| - 2) * B < newSize
        decreases newSize - (|index| - 1) * B
      {
        AppendBlock();
      }
      var nb := |index| - 1;
      if old(|index|) < |index| {
        CeilingUnique(newSize, B, nb);
        assert (nb - 1) * B == nb * B - B;
      } else {
        CeilingBelow(newSize, B, nb);
      }
    }

    /** One round of Shrink's loop: delete[] the last block and take its
        slot out of the index, so the sentinel moves down one place. */
    method DropLastBlock()
      requires Storage() && |index| >= 2 && size <= (|index| - 2) * B
      modifies this
      ensures Storage() && size == old(size) && indexCap == old(indexCap)
      ensures |index| == old(|index|) - 1
      ensures index[..|index| - 1] == old(index)[..|index| - 1]
      ensures cells == old(cells)[..|cells|] && Repr <= old(Repr)
    {
      LayoutDrop(index, cells, B, Repr);
      var nb := |index| - 1;
      Repr := Repr - {index[nb - 1].cells};
      index := index[..nb - 1] + [index[nb]];
      cells := cells[..|cells| - B];
      assert (nb - 1) * B == nb * B - B;
    }

    /** Shrink(): release blocks from the end while a whole block is unused;
        afterwards exactly QuotientRoundedUp(size, B) blocks remain. */
    method Shrink()
      requires Storage()
      modifies this
      ensures Valid() && size == old(size) && indexCap == old(indexCap)
      ensures Ceiling(size, B) < old(|index|) && index == Shrunk(old(index), size, B)
      ensures |cells| <= old(|cells|) && cells == old(cells)[..|cells|]
      ensures Repr <= old(Repr)
    {
      CeilingBelow(size, B, |index| - 1);
      var cap := B * (|index| - 1);
      if size + B <= cap {
        ReleaseBlocks(cap);
      } else {
        CeilingOfFullBlocks(size, B, |index| - 1);
        assert index == index[..|index| - 1] + [Sentinel];
      }
    }

    /** The do-while loop of Shrink: delete the last block while a whole
        block is unused. */
    method ReleaseBlocks(cap0: nat)
      requires Storage() && cap0 == B * (|index| - 1) && Ceiling(size, B) < |index|
      modifies this
      ensures Valid() && size == old(size) && indexCap == old(indexCap)
      ensures index == Shrunk(old(index), size, B)
      ensures cells == old(cells)[..|cells|] && Repr <= old(Repr)
    {
      var cap := cap0;
      while size + B <= cap
        invariant Storage() && size == old(size) && indexCap == old(indexCap)
        invariant cap == B * (|index| - 1)
        invariant Ceiling(size, B) < |index| <= old(|index|)
        invariant index[..|index| - 1] == old(index)[..|index| - 1]
        invariant cells == old(cells)[..|cells|]
        invariant Repr <= old(Repr)
        decreases cap
      {
        assert |index| >= 2 && size <= (|index| - 2) * B by {
          assert (|index| - 2) * B == cap - B;
        }
        DropLastBlock();
        cap := cap - B;
        CeilingBelow(size, B, |index| - 1);
      }
      CeilingOfFullBlocks(size, B, |index| - 1);
      assert index == index[..|index| - 1] + [Sentinel];
    }

    /** Begin(): slot 0, offset 0. */
    function Begin(): (it: Iter<T>)
      reads this, Repr
      requires Storage()
      ensures Attached(it, index) && InBlock(it, B) && Pos(it, B) == 0
    {
      Iter(0, index[0], 0)
    }

    /** End(): slot size / B, offset size % B. When the elements exactly fill
        their blocks, that slot is the sentinel: it is what keeps end() (and
        ++ onto it) inside the index. */
    function End(): (it: Iter<T>)
      reads this, Repr
      requires Storage()
      ensures Attached(it, index) && InBlock(it, B) && Pos(it, B) == size
      ensures Valid() ==> (it.block == Sentinel <==> size % B == 0)
    {
      Span();
      DivBounds(size, |index|, B);
      FloorAndCeiling(size, B);
      IterAt(index, B, size)
    }

    /** operator[]: cell index % B of block index / B. */
    function Get(i: nat): (x: T)
      reads this, Repr
      requires Valid() && i < size
      ensures x == Contents()[i]
    {
      CellAt(i);
      index[i / B].cells[i % B]
    }

    /** at(): the element, or std::out_of_range when the index is not below
        size(). */
    function At(i: nat): (r: Checked<T>)
      reads this, Repr
      requires Valid()
      ensures r.OutOfRange? <==> i >= size
      ensures r.Ok? ==> r.value == Contents()[i]
    {
      if i < size then Ok(Get(i)) else OutOfRange
    }

    /** front(): the first cell of the first block. */
    function Front(): (x: T)
      reads this, Repr
      requires Valid() && size > 0
      ensures x == Contents()[0]
    {
      CellAt(0);
      index[0].cells[0]
    }

    /** back(): *(end() - 1). */
    function Back(): (x: T)
      reads this, Repr
      requires Valid() && size > 0
      ensures x == Contents()[size - 1]
    {
      Span();
      AddLands(End(), -1, B, index);
      Deref(Sub(End(), 1, B, index))
    }

    /** capacity(): B times the index entries allocated, less the sentinel's;
        never below size(). */
    function Capacity(): (c: nat)
      reads this, Repr
      requires Valid()
      ensures c >= size
    {
      CeilingCovers(size, B, indexCap - 1);
      B * (indexCap - 1)
    }

    /** reserve(): allocate index entries for QuotientRoundedUp(newCap, B)
        blocks plus the sentinel, as std::vector::reserve does (it never
        shrinks). No block is created and no element moves. */
    method Reserve(newCap: nat)
      requires Valid()
      modifies this`indexCap
      ensures Valid() && indexCap == Max(old(indexCap), Ceiling(newCap, B) + 1)
      ensures Capacity() >= newCap
    {
      var nBlocks := Ceiling(newCap, B);
      if indexCap < nBlocks + 1 {
        indexCap := nBlocks + 1;
      }
      CeilingCovers(newCap, B, indexCap - 1);
    }

    /** The default constructor: no blocks, only the sentinel, and index room
        for nBlocks blocks. */
    constructor (blockSize: nat, nBlocks: nat)
      requires blockSize > 0
      ensures Valid() && B == blockSize && fresh(Repr)
      ensures Contents() == [] && Capacity() == blockSize * nBlocks
    {
      B := blockSize;
      index := [Sentinel];
      indexCap := nBlocks + 1;
      size := 0;
      cells := [];
      Repr := {};
      CeilingUnique(0, blockSize, 0);
    }

    /** The fill constructors: count push_backs of v (of T() for the one
        without a value). */
    constructor Fill(blockSize: nat, nBlocks: nat, count: nat, v: T)
      requires blockSize > 0
      ensures Valid() && B == blockSize && fresh(Repr)
      ensures Contents() == Repeat(v, count)
    {
      B := blockSize;
      index := [Sentinel];
      indexCap := nBlocks + 1;
      size := 0;
      cells := [];
      Repr := {};
      new;
      CeilingUnique(0, blockSize, 0);
      PadTo(count, v);
    }

    /** The range, copy and initializer-list constructors: a push_back of
        every element of the source, in order. */
    constructor FromSeq(blockSize: nat, nBlocks: nat, s: seq<T>)
      requires blockSize > 0
      ensures Valid() && B == blockSize && fresh(Repr)
      ensures Contents() == s
    {
      B := blockSize;
      index := [Sentinel];
      indexCap := nBlocks + 1;
      size := 0;
      cells := [];
      Repr := {};
      new;
      CeilingUnique(0, blockSize, 0);
      AppendAll(s);
    }

    /** The move constructors: an empty vector swaps with other when the
        block sizes agree; otherwise every element of other is moved to
        the back and other is cleared. */
    constructor Take(blockSize: nat, nBlocks: nat, other: MfVector<T>)
      requires blockSize > 0 && other.Valid()
      modifies other
      ensures Valid() && B == blockSize
      ensures Contents() == old(other.Contents())
      ensures other.Valid() && other.Contents() == []
    {
      B := blockSize;
      index := [Sentinel];
      indexCap := nBlocks + 1;
      size := 0;
      cells := [];
      Repr := {};
      new;
      CeilingUnique(0, blockSize, 0);
      if B == other.B {
        Swap(other);
      } else {
        var s := other.Elements();
        other.Clear();
        AppendAll(s);
      }
    }

    /** push_back, emplace_back and MovePushBack: make room for one more
        element (Grow), construct it at End(), count it. The blocks already
        in the index stay where they were. */
    method PushBack(x: T)
      requires Valid()
      modifies this, Repr
      ensures Valid() && Contents() == old(Contents()) + [x]
      ensures old(|index|) <= |index| && index[..old(|index|) - 1] == old(index)[..old(|index|) - 1]
      ensures old(Repr) <= Repr && fresh(Repr - old(Repr))
    {
      ghost var before := cells;
      Grow(size + 1);
      RoomFor(size + 1);
      var e := End();
      Store(e, x);
      size := size + 1;
      CeilingMonotone(size - 1, size, B);
      assert Contents() == before[..size - 1] + [x];
    }

    /** pop_back(): step back from end(), un-count the element, and release
        the last block when that element was the first in its block. */
    method PopBack()
      requires Valid() && size > 0
      modifies this
      ensures Valid() && Contents() == old(Contents())[..old(size) - 1]
      ensures Repr <= old(Repr)
    {
      var e := End();
      Span();
      AddLands(e, -1, B, index);
      e := Sub(e, 1, B, index);
      IterCell(e);
      size := size - 1;
      if e.offset == 0 {
        Shrink();
      } else {
        CeilingOfPredecessor(size + 1, B);
      }
    }

    /** clear(): no elements, and Shrink releases every block. */
    method Clear()
      requires Valid()
      modifies this
      ensures Valid() && Contents() == [] && index == [Sentinel]
      ensures Repr <= old(Repr) && indexCap == old(indexCap)
    {
      size := 0;
      Shrink();
      CeilingUnique(0, B, 0);
    }

    /** swap(): exchange the block indexes (with their allocations) and the
        sizes. */
    method Swap(other: MfVector<T>)
      requires Valid() && other.Valid() && B == other.B
      modifies this, other
      ensures Valid() && other.Valid()
      ensures Contents() == old(other.Contents()) && other.Contents() == old(Contents())
      ensures Repr == old(other.Repr) && other.Repr == old(Repr)
    {
      var i, s, c := other.index, other.size, other.indexCap;
      ghost var cs, rp := other.cells, other.Repr;
      other.Adopt(index, size, indexCap, cells, Repr);
      Adopt(i, s, c, cs, rp);
    }

    /** Take over a block index with its size and allocation: the field
        stores of swap(). */
    method Adopt(i: seq<Slot<T>>, s: nat, c: nat, ghost cs: seq<T>, ghost rp: set<array<T>>)
      requires Layout(i, cs, B, rp) && s <= |cs| && |i| <= c && |i| == Ceiling(s, B) + 1
      modifies this
      ensures Valid() && index == i && size == s && indexCap == c && cells == cs && Repr == rp
    {
      index, size, indexCap := i, s, c;
      cells, Repr := cs, rp;
    }

    /** The elements read in order with operator[], as the range-for loops
        over another mf_vector in copy assignment and the moves between
        block sizes do. */
    method Elements() returns (s: seq<T>)
      requires Valid()
      ensures s == Contents()
    {
      ghost var C := Contents();
      s := [];
      var k := 0;
      while k < size
        invariant k <= size && s == C[..k]
      {
        var x := Get(k);
        assert C[..k + 1] == C[..k] + [x];
        s := s + [x];
        k := k + 1;
      }
    }

    /** The push_back loop shared by the fill and range assigns: every
        element of s goes on at the back. */
    method AppendAll(s: seq<T>)
      requires Valid()
      modifies this, Repr
      ensures Valid() && Contents() == old(Contents()) + s
      ensures old(Repr) <= Repr && fresh(Repr - old(Repr))
    {
      var i := 0;
      while i < |s|
        invariant i <= |s| && Valid() && old(Repr) <= Repr && fresh(Repr - old(Repr))
        invariant Contents() == old(Contents()) + s[..i]
      {
        PushBack(s[i]);
        assert s[..i + 1] == s[..i] + [s[i]];
        i := i + 1;
      }
      assert s[..|s|] == s;
    }

    /** assign(n, val): clear(), then push_back(val) while size() < n. */
    method Assign(n: nat, v: T)
      requires Valid()
      modifies this, Repr
      ensures Valid() && Contents() == Repeat(v, n)
    {
      Clear();
      PadTo(n, v);
    }

    /** The loop `while (size() < n) push_back(val)` of assign and resize. */
    method PadTo(n: nat, v: T)
      requires Valid()
      modifies this, Repr
      ensures Valid() && old(Repr) <= Repr && fresh(Repr - old(Repr))
      ensures n <= old(size) ==> Contents() == old(Contents())
      ensures old(size) <= n ==> Contents() == old(Contents()) + Repeat(v, n - old(size))
    {
      while size < n
        invariant Valid() && old(size) <= size && old(Repr) <= Repr && fresh(Repr - old(Repr))
        invariant size == old(size) || size <= n
        invariant Contents() == old(Contents()) + Repeat(v, size - old(size))
        decreases n - size
      {
        PushBack(v);
        assert Repeat(v, size - 1 - old(size)) + [v] == Repeat(v, size - old(size));
      }
      assert old(Contents()) + Repeat(v, 0) == old(Contents());
    }

    /** The loop `while (n < size()) pop_back()` of resize. */
    method TruncateTo(n: nat)
      requires Valid()
      modifies this
      ensures Valid() && Repr <= old(Repr)
      ensures Contents() == old(Contents())[..if n < old(size) then n else old(size)]
    {
      while n < size
        invariant Valid() && size <= old(size) && Contents() == old(Contents())[..size]
        invariant size == old(size) || n <= size
        invariant Repr <= old(Repr)
        decreases size
      {
        PopBack();
      }
    }

    /** assign(first, last) and assign(initializer_list): clear(), then
        push_back every element in order. */
    method AssignSeq(s: seq<T>)
      requires Valid()
      modifies this, Repr
      ensures Valid() && Contents() == s
    {
      Clear();
      AppendAll(s);
    }

    /** resize(n, val): pop_back while n < size(), then push_back(val) while
        size() < n; resize(n) is the same with T(). */
    method Resize(n: nat, v: T)
      requires Valid()
      modifies this, Repr
      ensures Valid()
      ensures n <= old(size) ==> Contents() == old(Contents())[..n]
      ensures old(size) <= n ==> Contents() == old(Contents()) + Repeat(v, n - old(size))
    {
      TruncateTo(n);
      PadTo(n, v);
    }

    /** operator=(const mf_vector&): unless other is this vector,
        assign(other.begin(), other.end()). */
    method CopyAssign(other: MfVector<T>)
      requires Valid() && other.Valid()
      modifies this, Repr
      ensures Valid() && Contents() == old(other.Contents())
    {
      if other != this {
        var s := other.Elements();
        AssignSeq(s);
      }
    }

    /** operator=(mf_vector&&), for either block size: unless other is this
        vector, clear(), then take over other's elements and leave other
        empty. With equal block sizes that is swap(); with different ones
        the elements are moved one by one to the back and other is cleared,
        in place of reading other's blocks with this vector's block size. */
    method MoveAssign(other: MfVector<T>)
      requires Valid() && other.Valid()
      modifies this, Repr, other
      ensures Valid() && other.Valid()
      ensures Contents() == old(other.Contents())
      ensures other != this ==> other.Contents() == []
    {
      if other != this {
        Clear();
        if B == other.B {
          Swap(other);
        } else {
          var s := other.Elements();
          other.Clear();
          AppendAll(s);
        }
      }
    }

    /** One step of a forward move: *dst = *src, then ++src and ++dst. */
    method MoveOne(src: Iter<T>, dst: Iter<T>) returns (src': Iter<T>, dst': Iter<T>)
      requires Storage() && Attached(src, index) && InBlock(src, B)
      requires Attached(dst, index) && InBlock(dst, B)
      requires 0 <= Pos(src, B) < |cells| && 0 <= Pos(dst, B) < |cells|
      modifies this`cells, Repr
      ensures Storage() && cells == old(cells)[Pos(dst, B) := old(cells)[Pos(src, B)]]
      ensures Attached(src', index) && InBlock(src', B) && Pos(src', B) == Pos(src, B) + 1
      ensures Attached(dst', index) && InBlock(dst', B) && Pos(dst', B) == Pos(dst, B) + 1
    {
      Span();
      Store(dst, Deref(src));
      IncrementIsAddOne(src, B, index);
      IncrementIsAddOne(dst, B, index);
      src', dst' := Increment(src, B, index), Increment(dst, B, index);
    }

    /** One step of a backward move: --src and --dst, then *dst = *src. */
    method MoveOneBack(src: Iter<T>, dst: Iter<T>) returns (src': Iter<T>, dst': Iter<T>)
      requires Storage() && Attached(src, index) && InBlock(src, B)
      requires Attached(dst, index) && InBlock(dst, B)
      requires 0 < Pos(src, B) <= |cells| && 0 < Pos(dst, B) <= |cells|
      modifies this`cells, Repr
      ensures Storage() && cells == old(cells)[Pos(dst, B) - 1 := old(cells)[Pos(src, B) - 1]]
      ensures Attached(src', index) && InBlock(src', B) && Pos(src', B) == Pos(src, B) - 1
      ensures Attached(dst', index) && InBlock(dst', B) && Pos(dst', B) == Pos(dst, B) - 1
    {
      DecrementIsSubOne(src, B, index);
      DecrementIsSubOne(dst, B, index);
      src', dst' := Decrement(src, B, index), Decrement(dst, B, index);
      Store(dst', Deref(src'));
    }

    /** The move-construct step of MakeRoom: walk `from` and `to` forward
        count times, moving *from into *to. The source and target runs do
        not overlap. */
    method MoveForward(from: Iter<T>, to: Iter<T>, count: nat)
      requires Storage() && Attached(from, index) && InBlock(from, B)
      requires Attached(to, index) && InBlock(to, B)
      requires 0 <= Pos(from, B) && Pos(from, B) + count <= Pos(to, B) && Pos(to, B) + count <= |cells|
      modifies this`cells, Repr
      ensures Storage() && |cells| == old(|cells|)
      ensures cells == Shifted(old(cells), Pos(to, B), Pos(to, B) + count, Pos(to, B) - Pos(from, B))
    {
      ghost var f, t := Pos(from, B), Pos(to, B);
      Span();
      var src, dst := from, to;
      var i := 0;
      ShiftedNone(old(cells), t, t - f);
      while i < count
        invariant i <= count && Storage() && |cells| == old(|cells|)
        invariant Attached(src, index) && InBlock(src, B) && Pos(src, B) == f + i
        invariant Attached(dst, index) && InBlock(dst, B) && Pos(dst, B) == t + i
        invariant cells == Shifted(old(cells), t, t + i, t - f)
      {
        ShiftedStepUp(old(cells), t, t + i, t - f);
        src, dst := MoveOne(src, dst);
        i := i + 1;
      }
    }

    /** std::move_backward(first, last, last + d): walk `last` and its
        target back until `last` reaches `first`, moving each element d
        cells to the right. */
    method MoveBackward(first: Iter<T>, last: Iter<T>, d: nat)
      requires Storage() && Attached(first, index) && InBlock(first, B)
      requires Attached(last, index) && InBlock(last, B)
      requires 0 <= Pos(first, B) <= Pos(last, B) && Pos(last, B) + d <= |cells|
      modifies this`cells, Repr
      ensures Storage() && |cells| == old(|cells|)
      ensures cells == Shifted(old(cells), Pos(first, B) + d, Pos(last, B) + d, d)
    {
      ghost var top := Pos(last, B);
      Span();
      AddLands(last, d, B, index);
      var src, dst := last, Add(last, d, B, index);
      ShiftedNone(old(cells), top + d, d);
      while !Eq(first, src)
        invariant Storage() && |cells| == old(|cells|)
        invariant Attached(src, index) && InBlock(src, B) && Pos(first, B) <= Pos(src, B) <= top
        invariant Attached(dst, index) && InBlock(dst, B) && Pos(dst, B) == Pos(src, B) + d
        invariant cells == Shifted(old(cells), Pos(src, B) + d, top + d, d)
        decreases Pos(src, B)
      {
        EqIsPosEquality(first, src, B, index);
        ShiftedStepDown(old(cells), Pos(src, B) + d, top + d, d);
        src, dst := MoveOneBack(src, dst);
      }
      EqIsPosEquality(first, src, B, index);
    }

    /** MakeRoom(pos, n): open n cells at p = pos - begin(). After Grow, the
        last nu = min(size - p, n) elements are move-constructed into the
        cells past the old end, the rest of the tail is shifted right with
        std::move_backward, and size grows by n. The result is begin() + p,
        taken after Grow. */
    method MakeRoom(pos: Iter<T>, n: nat) returns (r: Iter<T>)
      requires Valid() && ValidIter(pos)
      modifies this, Repr
      ensures Valid() && old(Repr) <= Repr && fresh(Repr - old(Repr))
      ensures size == old(size) + n
      ensures ValidIter(r) && Pos(r, B) == Pos(pos, B)
      ensures Contents()[..Pos(r, B)] == old(Contents())[..Pos(r, B)]
      ensures Contents()[Pos(r, B) + n..] == old(Contents())[Pos(r, B)..]
    {
      var p := Diff(pos, Begin(), B);
      DiffIsPosDiff(pos, Begin(), B);
      ghost var C0 := Contents();
      r := GrowTo(p, n);
      var nu: nat := if size - p < n then size - p else n;
      ghost var grown := cells;
      OpenCells(r, n, nu);
      OpenedContents(grown, cells, p, n, size);
      ghost var size0 := size;
      SetSize(size + n);
      assert C0 == grown[..size0];
      assert Contents() == cells[..size0 + n];
    }

    /** The first half of MakeRoom: Grow(size() + n), then begin() + p. */
    method GrowTo(p: nat, n: nat) returns (r: Iter<T>)
      requires Valid() && p <= size
      modifies this
      ensures Storage() && size == old(size) && size + n <= |cells|
      ensures |index| == Ceiling(size + n, B) + 1
      ensures old(|cells|) <= |cells| && cells[..size] == old(Contents())
      ensures old(Repr) <= Repr && fresh(Repr - old(Repr))
      ensures Attached(r, index) && InBlock(r, B) && Pos(r, B) == p
    {
      Grow(size + n);
      CeilingMonotone(size, size + n, B);
      RoomFor(size + n);
      Span();
      AddLands(Begin(), p, B, index);
      r := Add(Begin(), p, B, index);
    }

    /** The store to _size that ends an operation once its cells are in
        place; the blocks and the index stay as they are. */
    method SetSize(n: nat)
      requires Storage() && n <= |cells|
      modifies this`size
      ensures Storage() && size == n
    {
      size := n;
    }

    /** The two moves of MakeRoom on cells already allocated: the last nu
        elements go n cells on into raw cells (from = end() - nu, to =
        from + n), then std::move_backward(r, end() - nu, end()) shifts
        the rest of the tail nu cells on. */
    method OpenCells(r: Iter<T>, n: nat, nu: nat)
      requires Storage() && Attached(r, index) && InBlock(r, B) && 0 <= Pos(r, B) <= size
      requires nu == (if size - Pos(r, B) < n then size - Pos(r, B) else n)
      requires size + n <= |cells|
      modifies this`cells, Repr
      ensures Storage() && |cells| == old(|cells|)
      ensures cells[..Pos(r, B)] == old(cells)[..Pos(r, B)]
      ensures cells[Pos(r, B) + n..size + n] == old(cells)[Pos(r, B)..size]
    {
      ghost var grown := cells;
      ghost var p, f := Pos(r, B), size - nu;
      var from := MoveTail(n, nu);
      ghost var moved := cells;
      assert moved == Shifted(grown, f + n, f + n + nu, n) && Pos(from, B) == f;
      // the source recomputes end() - nu here; index and size are as they were
      MoveBackward(r, from, nu);
      ghost var after := cells;
      assert after == Shifted(moved, p + nu, f + nu, nu);
      OpenGap(grown, moved, after, p, n, size, nu, f, f + n);
    }

    /** The first move of MakeRoom: the last nu elements, from end() - nu
        on, go n cells on. It returns end() - nu. */
    method MoveTail(n: nat, nu: nat) returns (from: Iter<T>)
      requires Storage() && nu <= size && nu <= n && size + n <= |cells|
      modifies this`cells, Repr
      ensures Storage() && |cells| == old(|cells|)
      ensures Attached(from, index) && InBlock(from, B) && Pos(from, B) == size - nu
      ensures cells == Shifted(old(cells), size - nu + n, size + n, n)
    {
      EndMinus(nu);
      Span();
      from := Sub(End(), nu, B, index);
      assert Pos(from, B) + n <= size + n < |index| * B;
      AddLands(from, n, B, index);
      MoveForward(from, Add(from, n, B, index), nu);
    }

    /** end() - k lands k positions before end(), in block form. */
    lemma EndMinus(k: nat)
      requires Storage() && k <= size
      ensures AddDefined(End(), -(k as int), B, index)
      ensures Attached(Sub(End(), k, B, index), index) && InBlock(Sub(End(), k, B, index), B)
      ensures Pos(Sub(End(), k, B, index), B) == size - k
    {
      Span();
      AddLands(End(), -(k as int), B, index);
    }

    /** Writing the run s into the cells from r on, walking an iterator from
        r to r + |s| (the copy loops of fill and initializer-list insert). */
    method WriteRun(r: Iter<T>, s: seq<T>)
      requires Storage() && Attached(r, index) && InBlock(r, B)
      requires 0 <= Pos(r, B) && Pos(r, B) + |s| <= size
      modifies this`cells, Repr
      ensures Storage() && |cells| == old(|cells|)
      ensures cells == old(cells[..Pos(r, B)]) + s + old(cells[Pos(r, B) + |s|..])
    {
      ghost var p := Pos(r, B);
      Span();
      AddLands(r, |s|, B, index);
      var stop := Add(r, |s|, B, index);
      var i := r;
      var j := 0;
      while Less(i, stop)
        invariant Storage() && 0 <= j <= |s|
        invariant Attached(i, index) && InBlock(i, B) && Pos(i, B) == p + j
        invariant |cells| == old(|cells|)
        invariant forall k :: 0 <= k < |cells| ==>
                    cells[k] == if p <= k < p + j then s[k - p] else old(cells[k])
        decreases |s| - j
      {
        LessIsPosOrder(i, stop, B);
        Store(i, s[j]);
        IncrementIsAddOne(i, B, index);
        i := Increment(i, B, index);
        j := j + 1;
      }
      LessIsPosOrder(i, stop, B);
      assert cells == old(cells[..p]) + s + old(cells[p + |s|..]);
    }

    /** emplace, and the copy and move inserts that call it: make room for
        one element at pos and construct x there. */
    method Emplace(pos: Iter<T>, x: T) returns (r: Iter<T>)
      requires Valid() && ValidIter(pos)
      modifies this, Repr
      ensures Valid() && old(Repr) <= Repr && fresh(Repr - old(Repr))
      ensures ValidIter(r) && Pos(r, B) == Pos(pos, B)
      ensures Contents() == old(Contents()[..Pos(pos, B)]) + [x] + old(Contents()[Pos(pos, B)..])
    {
      r := MakeRoom(pos, 1);
      ghost var room := Contents();
      Span();
      Store(r, x);
      assert Contents() == room[..Pos(r, B)] + [x] + room[Pos(r, B) + 1..];
    }

    /** Fill insert: make room for n elements at pos, then copy v into each. */
    method InsertFill(pos: Iter<T>, n: nat, v: T) returns (r: Iter<T>)
      requires Valid() && ValidIter(pos)
      modifies this, Repr
      ensures Valid() && old(Repr) <= Repr && fresh(Repr - old(Repr))
      ensures ValidIter(r) && Pos(r, B) == Pos(pos, B)
      ensures Contents() == old(Contents()[..Pos(pos, B)]) + Repeat(v, n) + old(Contents()[Pos(pos, B)..])
    {
      r := MakeRoom(pos, n);
      ghost var room := Contents();
      WriteRun(r, Repeat(v, n));
      assert Contents() == room[..Pos(r, B)] + Repeat(v, n) + room[Pos(r, B) + n..];
    }

    /** Initializer-list insert: make room for |s| elements at pos, then copy
        s into them. */
    method InsertSeq(pos: Iter<T>, s: seq<T>) returns (r: Iter<T>)
      requires Valid() && ValidIter(pos)
      modifies this, Repr
      ensures Valid() && old(Repr) <= Repr && fresh(Repr - old(Repr))
      ensures ValidIter(r) && Pos(r, B) == Pos(pos, B)
      ensures Contents() == old(Contents()[..Pos(pos, B)]) + s + old(Contents()[Pos(pos, B)..])
    {
      r := MakeRoom(pos, |s|);
      ghost var room := Contents();
      WriteRun(r, s);
      assert Contents() == room[..Pos(r, B)] + s + room[Pos(r, B) + |s|..];
    }

    /** std::rotate(begin() + first, begin() + middle, end()), by its effect:
        the elements from middle on come first. */
    method Rotate(first: nat, middle: nat)
      requires Valid() && first <= middle <= size
      modifies this`cells, Repr
      ensures Valid()
      ensures Contents() == old(Contents()[..first] + Contents()[middle..] + Contents()[first..middle])
    {
      var tmp := Rotated(first, middle);
      Span();
      DivBounds(first, |index|, B);
      WriteRun(IterAt(index, B, first), tmp);
      assert cells[..size] == old(cells[..first]) + tmp;
    }

    /** The elements from first on in their rotated order, read with
        operator[]: [middle, size) and then [first, middle). */
    method Rotated(first: nat, middle: nat) returns (tmp: seq<T>)
      requires Valid() && first <= middle <= size
      ensures tmp == Contents()[middle..] + Contents()[first..middle]
      ensures |tmp| == size - first
    {
      ghost var C := Contents();
      tmp := [];
      var k := middle;
      while k < size
        invariant middle <= k <= size && tmp == C[middle..k]
      {
        var x := Get(k);
        assert C[middle..k + 1] == C[middle..k] + [x];
        tmp := tmp + [x];
        k := k + 1;
      }
      assert tmp == C[middle..];
      k := first;
      while k < middle
        invariant first <= k <= middle && tmp == C[middle..] + C[first..k]
      {
        var x := Get(k);
        assert C[first..k + 1] == C[first..k] + [x];
        tmp := tmp + [x];
        k := k + 1;
      }
    }

    /** Range insert: push_back every element of s, then rotate them into
        place at the old position. */
    method InsertRange(pos: Iter<T>, s: seq<T>) returns (r: Iter<T>)
      requires Valid() && ValidIter(pos)
      modifies this, Repr
      ensures Valid() && old(Repr) <= Repr && fresh(Repr - old(Repr))
      ensures ValidIter(r) && Pos(r, B) == Pos(pos, B)
      ensures Contents() == old(Contents()[..Pos(pos, B)]) + s + old(Contents()[Pos(pos, B)..])
    {
      var posIndex := Diff(pos, Begin(), B);
      DiffIsPosDiff(pos, Begin(), B);
      var oldSize := size;
      var j := 0;
      while j < |s|
        invariant j <= |s| && Valid() && old(Repr) <= Repr && fresh(Repr - old(Repr))
        invariant Contents() == old(Contents()) + s[..j]
      {
        PushBack(s[j]);
        j := j + 1;
      }
      ghost var C := Contents();
      Rotate(posIndex, oldSize);
      assert C[..posIndex] == old(Contents()[..Pos(pos, B)]);
      assert C[oldSize..] == s;
      assert C[posIndex..oldSize] == old(Contents()[Pos(pos, B)..]);
      Span();
      AddLands(Begin(), posIndex, B, index);
      r := Add(Begin(), posIndex, B, index);
    }

    /** The body of erase(first, last) for a non-empty range: move the tail
        from last down to first (std::move, walking two iterators until the
        source reaches end()), take last - first off the size, and Shrink. */
    method EraseRange(first: Iter<T>, last: Iter<T>)
      requires Valid() && ValidIter(first) && ValidIter(last) && Pos(first, B) < Pos(last, B)
      modifies this, Repr
      ensures Valid() && Repr <= old(Repr)
      ensures Contents() == old(Contents()[..Pos(first, B)] + Contents()[Pos(last, B)..])
      ensures Ceiling(size, B) < old(|index|) && index == Shrunk(old(index), size, B)
    {
      MoveDown(last, End(), first);
      DiffIsPosDiff(last, first, B);
      CloseGap(old(cells), cells, Pos(first, B), Pos(last, B), size);
      size := size - Diff(last, first, B);
      Shrink();
    }

    /** std::move(first, last, out) for a target at or before the source:
        walk the three iterators forward until first reaches last. */
    method MoveDown(first: Iter<T>, last: Iter<T>, out: Iter<T>)
      requires Storage() && Attached(first, index) && InBlock(first, B)
      requires Attached(last, index) && InBlock(last, B)
      requires Attached(out, index) && InBlock(out, B)
      requires 0 <= Pos(out, B) <= Pos(first, B) <= Pos(last, B) <= |cells|
      modifies this`cells, Repr
      ensures Storage() && |cells| == old(|cells|)
      ensures cells == Shifted(old(cells), Pos(out, B), Pos(out, B) + (Pos(last, B) - Pos(first, B)),
                               Pos(out, B) - Pos(first, B))
    {
      ghost var o0, f0 := Pos(out, B), Pos(first, B);
      Span();
      var o, i := out, first;
      ShiftedNone(old(cells), o0, o0 - f0);
      while !Eq(i, last)
        invariant Storage() && |cells| == old(|cells|)
        invariant Attached(i, index) && InBlock(i, B) && f0 <= Pos(i, B) <= Pos(last, B)
        invariant Attached(o, index) && InBlock(o, B) && Pos(o, B) == o0 + (Pos(i, B) - f0)
        invariant cells == Shifted(old(cells), o0, Pos(o, B), o0 - f0)
        decreases Pos(last, B) - Pos(i, B)
      {
        EqIsPosEquality(i, last, B, index);
        ShiftedStepUp(old(cells), o0, Pos(o, B), o0 - f0);
        i, o := MoveOne(i, o);
      }
      EqIsPosEquality(i, last, B, index);
    }

    /** erase(first, last), returning begin() + (first - begin()) computed
        after the erasure: an iterator into the index as it now stands. */
    method Erase(first: Iter<T>, last: Iter<T>) returns (r: Iter<T>)
      requires Valid() && ValidIter(first) && ValidIter(last) && Pos(first, B) <= Pos(last, B)
      modifies this, Repr
      ensures Valid() && Repr <= old(Repr)
      ensures Contents() == old(Contents()[..Pos(first, B)] + Contents()[Pos(last, B)..])
      ensures ValidIter(r) && Pos(r, B) == Pos(first, B)
      ensures Pos(r, B) == size ==> Eq(r, End())
    {
      var f := Diff(first, Begin(), B);
      DiffIsPosDiff(first, Begin(), B);
      LessIsPosOrder(first, last, B);
      if Less(first, last) {
        EraseRange(first, last);
      }
      Span();
      AddLands(Begin(), f, B, index);
      r := Add(Begin(), f, B, index);
      if f == size {
        PosDetermines(r, End(), B, index);
      }
    }

    /** erase(first, last) as the source has it: the iterator returned is
        `first` itself, made before Shrink may release its block. */
    method EraseAsWritten(first: Iter<T>, last: Iter<T>) returns (r: Iter<T>)
      requires Valid() && ValidIter(first) && ValidIter(last) && Pos(first, B) <= Pos(last, B)
      modifies this, Repr
      ensures Valid() && Repr <= old(Repr)
      ensures Contents() == old(Contents()[..Pos(first, B)] + Contents()[Pos(last, B)..])
      ensures r == first
      ensures Pos(first, B) < Pos(last, B) ==>
                Ceiling(size, B) < old(|index|) && index == Shrunk(old(index), size, B)
    {
      var f := first;
      LessIsPosOrder(first, last, B);
      if Less(first, last) {
        EraseRange(first, last);
      }
      r := f;
    }

    /** erase(position): erase(position, position + 1). */
    method EraseAt(pos: Iter<T>) returns (r: Iter<T>)
      requires Valid() && ValidIter(pos) && Pos(pos, B) < size
      modifies this, Repr
      ensures Valid() && Repr <= old(Repr)
      ensures Contents() == old(Contents()[..Pos(pos, B)] + Contents()[Pos(pos, B) + 1..])
      ensures ValidIter(r) && Pos(r, B) == Pos(pos, B)
    {
      Span();
      AddLands(pos, 1, B, index);
      r := Erase(pos, Add(pos, 1, B, index));
    }
  }
}
