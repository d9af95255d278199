/** MFV_Iterator, the random-access iterator of mf_vector. The C++ iterator
    holds four pointers: `_block` into the vector of block pointers, and
    `_first`, `_last`, `_current` into one block. Here `_block` is the slot
    number in the block index, `_first` is the block that slot held when the
    iterator was made (so `_last` is `_first + B`), and `_current` is the
    offset from `_first`. The block index is passed to the operations that
    dereference `_block`. */
module MfvIterator {
  import opened Defines

  /** One entry of an mf_vector's block index: a block of B cells, or the
      sentinel that always ends the index. The sentinel stands for the address
      of the process-wide dummy, so iterators into it compare by that address
      and are never read through. */
  datatype Slot<T> = Block(cells: array<T>) | Sentinel

  datatype Iter<T> = Iter(slot: int, block: Slot<T>, offset: int)

  /** The element position an iterator denotes. */
  function Pos<T>(it: Iter<T>, B: nat): int
  {
    it.slot * B + it.offset
  }

  /** `_first <= _current < _last`: the form every iterator the container
      hands out, and every iterator the operations below produce, has. */
  predicate InBlock<T>(it: Iter<T>, B: nat)
  {
    0 <= it.offset < B
  }

  /** The iterator caches the block its slot currently holds. */
  predicate Attached<T>(it: Iter<T>, index: seq<Slot<T>>)
  {
    0 <= it.slot < |index| && it.block == index[it.slot]
  }

  /** No block appears twice in an index. */
  predicate Distinct<T>(index: seq<Slot<T>>)
  {
    forall j, k :: 0 <= j < k < |index| ==> index[j] != index[k]
  }

  /** Division of a signed difference_type as C++ does it: toward zero. */
  function TruncDiv(x: int, d: nat): (q: int)
    requires d > 0
    ensures x >= 0 ==> q == x / d
  {
    if x >= 0 then x / d else -((-x) / d)
  }

  /** The number of blocks operator+= moves by when the target offset leaves
      the current block. */
  function NodeOffset(offset: int, B: nat): int
    requires B > 0
  {
    if offset > 0 then TruncDiv(offset, B) else TruncDiv(1 + offset - B, B)
  }

  /** operator+= does not read the index when the target offset stays in the
      current block; otherwise the slot it moves to must exist. */
  predicate AddDefined<T>(it: Iter<T>, a: int, B: nat, index: seq<Slot<T>>)
    requires B > 0
  {
    var offset := a + it.offset;
    !(0 <= offset < B) ==> 0 <= it.slot + NodeOffset(offset, B) < |index|
  }

  /** operator+= (and operator+, which applies it to a copy). */
  function Add<T>(it: Iter<T>, a: int, B: nat, index: seq<Slot<T>>): Iter<T>
    requires B > 0 && AddDefined(it, a, B, index)
  {
    var offset := a + it.offset;
    if 0 <= offset < B then
      Iter(it.slot, it.block, it.offset + a)
    else
      var nodeOffset := NodeOffset(offset, B);
      Iter(it.slot + nodeOffset, index[it.slot + nodeOffset], offset - nodeOffset * B)
  }

  /** operator-= and operator-(difference_type): operator+= of the negation. */
  function Sub<T>(it: Iter<T>, a: int, B: nat, index: seq<Slot<T>>): Iter<T>
    requires B > 0 && AddDefined(it, -a, B, index)
  {
    Add(it, -a, B, index)
  }

  /** Prefix and postfix operator++ (the private Increment). */
  function Increment<T>(it: Iter<T>, B: nat, index: seq<Slot<T>>): Iter<T>
    requires it.offset + 1 == B ==> 0 <= it.slot + 1 < |index|
  {
    if it.offset + 1 == B then Iter(it.slot + 1, index[it.slot + 1], 0)
    else Iter(it.slot, it.block, it.offset + 1)
  }

  /** Prefix and postfix operator-- (the private Decrement). */
  function Decrement<T>(it: Iter<T>, B: nat, index: seq<Slot<T>>): Iter<T>
    requires it.offset == 0 ==> 0 <= it.slot - 1 < |index|
  {
    if it.offset == 0 then Iter(it.slot - 1, index[it.slot - 1], B - 1)
    else Iter(it.slot, it.block, it.offset - 1)
  }

  /** The difference of two iterators, operator-(a, b). */
  function Diff<T>(a: Iter<T>, b: Iter<T>, B: nat): int
  {
    (a.slot - b.slot - 1) * B + a.offset + (B - b.offset)
  }

  /** operator<: first by slot, then by position in the block. */
  predicate Less<T>(a: Iter<T>, b: Iter<T>)
  {
    a.slot < b.slot || (a.slot == b.slot && a.offset < b.offset)
  }

  /** operator==: the `_current` pointers are equal, that is, the same cell of
      the same block. */
  predicate Eq<T>(a: Iter<T>, b: Iter<T>)
  {
    a.block == b.block && a.offset == b.offset
  }

  /** operator>, operator<= and operator>= in terms of operator<, and
      operator!= in terms of operator==. */
  predicate Greater<T>(a: Iter<T>, b: Iter<T>) { Less(b, a) }
  predicate LessEq<T>(a: Iter<T>, b: Iter<T>) { !Less(b, a) }
  predicate GreaterEq<T>(a: Iter<T>, b: Iter<T>) { !Less(a, b) }
  predicate NotEq<T>(a: Iter<T>, b: Iter<T>) { !Eq(a, b) }

  /** The iterator at position p of a container whose index has the given
      blocks: block p / B, offset p % B (this is also what End() builds). */
  function IterAt<T>(index: seq<Slot<T>>, B: nat, p: nat): (it: Iter<T>)
    requires B > 0 && p / B < |index|
    ensures Attached(it, index) && InBlock(it, B) && Pos(it, B) == p
  {
    DivMod(p, B);
    Iter(p / B, index[p / B], p % B)
  }

  /** The block count operator+= moves by is the floor of offset / B: for a
      negative offset the formula (1 + offset - B) / B, truncated toward zero,
      rounds down. */
  lemma {:induction false} NodeOffsetIsFloor(offset: int, B: nat)
    requires B > 0 && !(0 <= offset < B)
    ensures NodeOffset(offset, B) == offset / B
  {
    if offset < 0 {
      var x: nat := -offset;
      var c := Ceiling(x, B);
      CeilingIsLeast(x, B);
      assert (c - 1) * B == c * B - B;
      assert offset == (-c) * B + (c * B - x);
      DivModUnique(offset, B, -c, c * B - x);
    }
  }

  /** Block arithmetic behind operator+=: with q the floor of offset / B, the
      position slot*B + offset is block slot + q, offset offset % B, and that
      block exists when the position lies in the first n blocks. */
  lemma {:induction false} BlockStep(slot: int, offset: int, B: nat, n: int)
    requires B > 0 && 0 <= slot * B + offset < n * B
    ensures 0 <= slot + offset / B < n
    ensures (slot + offset / B) * B + offset % B == slot * B + offset
  {
    DivMod(offset, B);
    var p, q := slot * B + offset, offset / B;
    assert p == (slot + q) * B + offset % B;
    DivModUnique(p, B, slot + q, offset % B);
    DivBounds(p, n, B);
  }

  /** operator+= lands on position Pos(it) + a, keeps the iterator in block
      form and attached, and reads only existing slots, whenever the target
      position lies in the index. */
  lemma {:induction false} AddLands<T>(it: Iter<T>, a: int, B: nat, index: seq<Slot<T>>)
    requires B > 0 && InBlock(it, B) && Attached(it, index)
    requires 0 <= Pos(it, B) + a < |index| * B
    ensures AddDefined(it, a, B, index)
    ensures Pos(Add(it, a, B, index), B) == Pos(it, B) + a
    ensures InBlock(Add(it, a, B, index), B) && Attached(Add(it, a, B, index), index)
  {
    var offset := a + it.offset;
    if !(0 <= offset < B) {
      NodeOffsetIsFloor(offset, B);
      BlockStep(it.slot, offset, B, |index|);
      DivMod(offset, B);
      assert offset - (offset / B) * B == offset % B;
    }
  }

  /** An attached iterator in block form is determined by its position. */
  lemma {:induction false} PosDetermines<T>(a: Iter<T>, b: Iter<T>, B: nat, index: seq<Slot<T>>)
    requires B > 0 && InBlock(a, B) && InBlock(b, B)
    requires Attached(a, index) && Attached(b, index)
    requires Pos(a, B) == Pos(b, B)
    ensures a == b
  {
    DivModUnique(Pos(a, B), B, a.slot, a.offset);
    DivModUnique(Pos(a, B), B, b.slot, b.offset);
  }

  /** (it + k) - k is it again. */
  lemma AddThenSub<T>(it: Iter<T>, k: int, B: nat, index: seq<Slot<T>>)
    requires B > 0 && InBlock(it, B) && Attached(it, index)
    requires 0 <= Pos(it, B) + k < |index| * B && Pos(it, B) < |index| * B
    ensures AddDefined(it, k, B, index)
    ensures AddDefined(Add(it, k, B, index), -k, B, index)
    ensures Sub(Add(it, k, B, index), k, B, index) == it
  {
    AddLands(it, k, B, index);
    var j := Add(it, k, B, index);
    AddLands(j, -k, B, index);
    PosDetermines(Sub(j, k, B, index), it, B, index);
  }

  /** operator++ moves one position on, staying attached and in block form,
      whenever the next position lies in the index; it is operator+=(1). */
  lemma {:induction false} IncrementIsAddOne<T>(it: Iter<T>, B: nat, index: seq<Slot<T>>)
    requires B > 0 && InBlock(it, B) && Attached(it, index)
    requires Pos(it, B) + 1 < |index| * B
    ensures it.offset + 1 == B ==> 0 <= it.slot + 1 < |index|
    ensures Pos(Increment(it, B, index), B) == Pos(it, B) + 1
    ensures InBlock(Increment(it, B, index), B) && Attached(Increment(it, B, index), index)
    ensures AddDefined(it, 1, B, index) && Increment(it, B, index) == Add(it, 1, B, index)
  {
    AddLands(it, 1, B, index);
    if it.offset + 1 == B {
      assert Pos(it, B) + 1 == (it.slot + 1) * B;
      DivBounds(Pos(it, B) + 1, |index|, B);
      DivModUnique(Pos(it, B) + 1, B, it.slot + 1, 0);
    }
    PosDetermines(Increment(it, B, index), Add(it, 1, B, index), B, index);
  }

  /** operator-- moves one position back, staying attached and in block
      form, whenever there is a previous position; it is operator-=(1). */
  lemma {:induction false} DecrementIsSubOne<T>(it: Iter<T>, B: nat, index: seq<Slot<T>>)
    requires B > 0 && InBlock(it, B) && Attached(it, index)
    requires 0 < Pos(it, B)
    ensures it.offset == 0 ==> 0 <= it.slot - 1 < |index|
    ensures Pos(Decrement(it, B, index), B) == Pos(it, B) - 1
    ensures InBlock(Decrement(it, B, index), B) && Attached(Decrement(it, B, index), index)
    ensures AddDefined(it, -1, B, index) && Decrement(it, B, index) == Sub(it, 1, B, index)
  {
    if it.offset == 0 {
      assert it.slot > 0 by {
        if it.slot <= 0 {
          MulMonotone(it.slot, 0, B);
        }
      }
      assert (it.slot - 1) * B == it.slot * B - B;
      DivModUnique(B, B, 1, 0);
      assert NodeOffset(-1, B) == -1;
    }
  }

  /** operator++ and operator-- undo each other. */
  lemma IncrementDecrement<T>(it: Iter<T>, B: nat, index: seq<Slot<T>>)
    requires B > 0 && InBlock(it, B) && Attached(it, index)
    requires 0 < Pos(it, B) && Pos(it, B) < |index| * B
    ensures it.offset == 0 ==> 0 <= it.slot - 1 < |index|
    ensures Decrement(it, B, index).offset + 1 == B ==> 0 <= Decrement(it, B, index).slot + 1 < |index|
    ensures Increment(Decrement(it, B, index), B, index) == it
  {
    DecrementIsSubOne(it, B, index);
    IncrementIsAddOne(Decrement(it, B, index), B, index);
    PosDetermines(Increment(Decrement(it, B, index), B, index), it, B, index);
  }

  /** The other order: operator-- undoes operator++. */
  lemma DecrementAfterIncrement<T>(it: Iter<T>, B: nat, index: seq<Slot<T>>)
    requires B > 0 && InBlock(it, B) && Attached(it, index)
    requires Pos(it, B) + 1 < |index| * B
    ensures it.offset + 1 == B ==> 0 <= it.slot + 1 < |index|
    ensures Increment(it, B, index).offset == 0 ==> 0 <= Increment(it, B, index).slot - 1 < |index|
    ensures Decrement(Increment(it, B, index), B, index) == it
  {
    IncrementIsAddOne(it, B, index);
    DecrementIsSubOne(Increment(it, B, index), B, index);
    PosDetermines(Decrement(Increment(it, B, index), B, index), it, B, index);
  }

  /** The iterator difference is the difference of positions. */
  lemma DiffIsPosDiff<T>(a: Iter<T>, b: Iter<T>, B: nat)
    ensures Diff(a, b, B) == Pos(a, B) - Pos(b, B)
  {
    assert (a.slot - b.slot - 1) * B == a.slot * B - b.slot * B - B;
  }

  /** operator< is the order of positions, for iterators in block form. */
  lemma {:induction false} LessIsPosOrder<T>(a: Iter<T>, b: Iter<T>, B: nat)
    requires InBlock(a, B) && InBlock(b, B)
    ensures Less(a, b) <==> Pos(a, B) < Pos(b, B)
  {
    if a.slot < b.slot {
      MulMonotone(a.slot + 1, b.slot, B);
    } else if b.slot < a.slot {
      MulMonotone(b.slot + 1, a.slot, B);
    }
  }

  /** operator== is equality of positions, for attached iterators in block
      form over an index without repeated blocks. */
  lemma {:induction false} EqIsPosEquality<T>(a: Iter<T>, b: Iter<T>, B: nat, index: seq<Slot<T>>)
    requires B > 0 && InBlock(a, B) && InBlock(b, B)
    requires Attached(a, index) && Attached(b, index) && Distinct(index)
    ensures Eq(a, b) <==> Pos(a, B) == Pos(b, B)
  {
    if Pos(a, B) == Pos(b, B) {
      PosDetermines(a, b, B, index);
    }
  }

  /** The iterator walk of tests/test-mfv.cpp on an mf_vector of eight
      elements in blocks of five: begin() + 3, then - 2, += 1, -= 3, and the
      distance from there to end(), which is 7. */
  lemma {:induction false} IteratorScenario<T>(index: seq<Slot<T>>)
    requires |index| == 3
    ensures var i1 := Add(IterAt(index, 5, 0), 3, 5, index);
            var i2 := IterAt(index, 5, 8);
            && Pos(i1, 5) == 3
            && AddDefined(i1, -2, 5, index) && Pos(Sub(i1, 2, 5, index), 5) == 1
            && AddDefined(i1, 1, 5, index)
            && var i3 := Add(i1, 1, 5, index);
               && Pos(i3, 5) == 4
               && AddDefined(i3, -3, 5, index)
               && var i4 := Sub(i3, 3, 5, index);
                  && Pos(i4, 5) == 1 && Diff(i2, i4, 5) == 7 && Less(i4, i2)
  {
    DivModUnique(0, 5, 0, 0);
    DivModUnique(8, 5, 1, 3);
    assert IterAt(index, 5, 0) == Iter(0, index[0], 0);
    assert IterAt(index, 5, 8) == Iter(1, index[1], 3);
  }
}
