# frystl containers in Dafny

A model of the three containers of the frystl header library and of the helpers they share:

- `mf_vector<T, B>` (module `MfVectors`). It keeps its elements in blocks of `B` cells. A block index lists the blocks and always ends with one extra entry, the sentinel. The sentinel stands for the address of `MFVectorDummyEnd`, so that `end()` is defined when the last block is full.
- `MFV_Iterator` (module `MfvIterator`). It holds a slot of the block index, the block that slot held, and an offset into that block.
- `static_vector<T, Capacity>` (module `StaticVectors`). It has `Capacity` cells inside the object, and the elements are a prefix of them.
- `static_deque<T, Capacity>` (module `StaticDeques`). It has `2 * (Capacity - 1) + 1` cells inside the object. The elements are the cells `[_begin, _end)`, and new contents are centred.
- From `frystl-defines.hpp`: `Ceiling`, `MoveConstruct` and `MoveConstructBackward` (module `Defines`).
- The comparison operators the three containers share (module `SeqOrder`).

## How the source is modelled

- Every container is a `class`:
  - its fields are the C++ members;
  - its operations are methods with `modifies` clauses;
  - `Valid()` is the representation invariant;
  - `Contents()` gives the elements from `begin()` to `end()`.
- The cells of the static containers are an `array`.
- The `mf_vector` block index is a `seq` of `Slot`s, and each real block is an `array` of `B` cells. A ghost `cells` sequence concatenates the blocks, and `Layout` ties it to them.
- Loops in the source are `while` loops with invariants. Examples are `Grow`, `Shrink`, the `MakeRoom` moves, `MoveConstruct`, the `FillCell` loops and the `push_back` loops of assign.
- The iterator and its arithmetic are pure functions on values. The block index is passed in where the source dereferences `_block`.
- An iterator of a static container is its cell number.
- Each operation is specified on `Contents()`. The new contents are stated as slices and concatenations of the old contents.
- Where the source calls `FRYSTL_ASSERT`, or where the C++ standard requires something of the caller, the model has a `requires` clause.
- `at()` returns a `Checked` value; its `OutOfRange` case stands for the thrown `std::out_of_range`.
- `CellWrite` records whether a cell was written by assignment over a live element or by construction in a free cell. This is the distinction `FillCell` and `emplace` make.

Where the code does something other than what its callers evidently expect, the model keeps the code's behaviour in an as-written member and uses a corrected member elsewhere. The six cases are listed under Findings.

## Model

| member | source | states |
|---|---|---|
| Defines.Repeat | static_vector.hpp:76-81 | n copies of v: length n, every element v (the run a fill constructor, fill insert or fill assign adds) |
| Defines.CeilingIsLeast | frystl-defines.hpp:38-42 | Ceiling(num, d) * d >= num, and one block fewer would not hold num |
| Defines.CeilingBelow | frystl-defines.hpp:38-42 | any q with q * d >= num is at least Ceiling(num, d) |
| Defines.CeilingUnique | frystl-defines.hpp:38-42 | Ceiling is the only q that satisfies both inequalities |
| Defines.CeilingOfPredecessor | frystl-defines.hpp:38-42 | removing the last element lowers the rounded-up block count by one exactly when that element started a block |
| Defines.BlockBelowCeiling | frystl-defines.hpp:38-42 | Ceiling(0, d) is 0, and the block of any index below n is below Ceiling(n, d) |
| Defines.CeilingCovers | frystl-defines.hpp:38-42 | Ceiling(n, d) or more blocks of d cells hold n cells |
| Defines.CeilingOfFullBlocks | frystl-defines.hpp:38-42 | q blocks are exactly Ceiling(n, d) when they hold n cells with less than one block to spare |
| Defines.CeilingMonotone | frystl-defines.hpp:38-42 | Ceiling does not decrease as the numerator grows |
| Defines.FloorAndCeiling | frystl-defines.hpp:38-42 | n / d <= Ceiling(n, d), with equality exactly when d divides n |
| Defines.Shifted | frystl-defines.hpp:48-65 | defined as the cells after a run is displaced by d: cell k in [lo, hi) holds old cell k - d, every other cell is unchanged; its ensures states only that the length is kept |
| Defines.CloseGap | mf_vector.hpp:491-505 | after the tail from l is moved down to f, the first size - (l - f) cells are the elements before f followed by those from l |
| Defines.OpenGap | mf_vector.hpp:745-763 | after MakeRoom's two moves, the cells before p are unchanged and the old elements from p start n cells later |
| Defines.MoveRun | frystl-defines.hpp:48-65 | copying a run d cells forward or backward in one array leaves that array equal to Shifted of the old one |
| Defines.MoveConstruct | frystl-defines.hpp:48-56 | returns firstOut + (last - first); the target run holds the old source run, and cells outside it are unchanged |
| Defines.MoveConstructBackward | frystl-defines.hpp:57-65 | returns firstOut - (last - first); the run ending at firstOut holds the old source run, and cells outside it are unchanged |
| SeqOrder.Equal | mf_vector.hpp:799-830 | operator== holds exactly when the element sequences are equal |
| SeqOrder.NotEqual | mf_vector.hpp:799-830 | operator!= holds exactly when the element sequences differ |
| SeqOrder.LexLessIff | static_vector.hpp:428-459 | operator< holds exactly when some position decides it after a run of pairwise equivalent elements |
| SeqOrder.Trichotomy | static_deque.hpp:633-664 | for a trichotomous element order, exactly one of lhs < rhs, lhs == rhs, rhs < lhs holds |
| SeqOrder.DerivedOperators | static_deque.hpp:633-664 | operator<= is "< or ==", operator> is the swapped <, and operator>= is "> or ==" |
| SeqOrder.PrefixIsLess | mf_vector.hpp:799-830 | a proper prefix compares less, and the longer sequence does not |
| MfvIterator.TruncDiv | mf_vector.hpp:179-195 | division toward zero; equal to floor division for a non-negative dividend |
| MfvIterator.NodeOffsetIsFloor | mf_vector.hpp:179-195 | the block count operator+= moves by, in either of its two formulas, is the floor of offset / B |
| MfvIterator.BlockStep | mf_vector.hpp:179-195 | the slot and offset operator+= computes denote the same position as slot * B + offset |
| MfvIterator.AddLands | mf_vector.hpp:179-204 | operator+= is defined for any target inside the index; it lands on position Pos(it) + a, stays within its block and caches the block of its new slot |
| MfvIterator.PosDetermines | mf_vector.hpp:114-245 | two attached iterators within their blocks at the same position are the same iterator |
| MfvIterator.AddThenSub | mf_vector.hpp:196-209 | (it + k) - k == it |
| MfvIterator.IncrementIsAddOne | mf_vector.hpp:225-234 | operator++ advances one position; at a block end it moves to the next slot, and it equals it + 1 |
| MfvIterator.DecrementIsSubOne | mf_vector.hpp:235-244 | operator-- goes back one position, moving to the previous slot at a block start, and equals it - 1 |
| MfvIterator.IncrementDecrement | mf_vector.hpp:225-244 | ++ after -- gives the iterator back |
| MfvIterator.DecrementAfterIncrement | mf_vector.hpp:225-244 | -- after ++ gives the iterator back; with IncrementDecrement, the two operations undo each other in both orders |
| MfvIterator.DiffIsPosDiff | mf_vector.hpp:273-286 | the iterator difference is the difference of positions |
| MfvIterator.LessIsPosOrder | mf_vector.hpp:174-178 | operator< is the order of positions |
| MfvIterator.EqIsPosEquality | mf_vector.hpp:170-173 | operator== (equal `_current`) is equality of positions for attached iterators in distinct blocks |
| MfvIterator.Greater | mf_vector.hpp:254-259 | operator> is the swapped operator< |
| MfvIterator.LessEq | mf_vector.hpp:260-265 | operator<= is the negation of the swapped operator< |
| MfvIterator.GreaterEq | mf_vector.hpp:266-271 | operator>= is the negation of operator< |
| MfvIterator.NotEq | mf_vector.hpp:248-253 | operator!= is the negation of operator== |
| MfvIterator.IterAt | mf_vector.hpp:771-781 | the iterator at position p of an index is attached, within its block and at position p |
| MfvIterator.IteratorScenario | tests/test-mfv.cpp:226-241 | with B = 5 and eight elements: begin() + 3 is at 3, minus 2 at 1, += 1 at 4, -= 3 at 1, and end() minus that iterator is 7 and compares greater |
| MfVectors.Shrunk | mf_vector.hpp:728-744 | the index after Shrink has Ceiling(size, B) + 1 entries and ends with the sentinel |
| MfVectors.LayoutAppend | mf_vector.hpp:711-727 | putting a fresh block before the sentinel keeps the layout, with B more cells |
| MfVectors.LayoutDrop | mf_vector.hpp:728-744 | releasing the last block and moving the sentinel down keeps the layout, with B fewer cells |
| MfVectors.EraseAsWrittenDangles | mf_vector.hpp:491-505 | with B = 1 and one element, erase(begin(), end()) returns an iterator whose cached block is no longer in the index |
| MfVectors.MfVector.CellAt | mf_vector.hpp:481-490 | cell i is cell i % B of the block in slot i / B |
| MfVectors.MfVector.Span | mf_vector.hpp:407-418 | size <= cells < entries * B |
| MfVectors.MfVector.RoomFor | mf_vector.hpp:711-727 | Ceiling(n, B) real blocks hold n cells |
| MfVectors.MfVector.IterCell | mf_vector.hpp:210-213 | an iterator of this vector reads the cell at its position |
| MfVectors.MfVector.Deref | mf_vector.hpp:210-213 | operator* yields the cell at the iterator's position |
| MfVectors.MfVector.Store | mf_vector.hpp:745-770 | writing through an iterator changes exactly the cell at its position |
| MfVectors.MfVector.AppendBlock | mf_vector.hpp:711-727 | one round of Grow: one more entry and B fresh cells; earlier blocks are unchanged |
| MfVectors.MfVector.Grow | mf_vector.hpp:711-727 | real blocks become max(old, Ceiling(newSize, B)); old blocks, cells and size are unchanged |
| MfVectors.MfVector.DropLastBlock | mf_vector.hpp:728-744 | one round of Shrink: one entry fewer, cells truncated, size unchanged |
| MfVectors.MfVector.Shrink | mf_vector.hpp:728-744 | afterwards exactly Ceiling(size, B) blocks remain (the internal-error assertion holds); the index is Shrunk of the old one |
| MfVectors.MfVector.ReleaseBlocks | mf_vector.hpp:731-740 | the do-while loop leaves the index Shrunk with the sentinel restored |
| MfVectors.MfVector.Begin | mf_vector.hpp:771-776 | begin() is attached, within its block and at position 0 |
| MfVectors.MfVector.End | mf_vector.hpp:777-781 | end() is at position size, and it is in the sentinel exactly when B divides size |
| MfVectors.MfVector.Get | mf_vector.hpp:481-490 | operator[] yields element i |
| MfVectors.MfVector.At | mf_vector.hpp:471-480 | at() is out of range exactly when i >= size; otherwise it yields element i |
| MfVectors.MfVector.Front | mf_vector.hpp:460-469 | front() is the first element |
| MfVectors.MfVector.Back | mf_vector.hpp:450-459 | back() is the last element |
| MfVectors.MfVector.Capacity | mf_vector.hpp:407-418 | capacity() is at least size() |
| MfVectors.MfVector.Reserve | mf_vector.hpp:402-406 | the index allocation grows to Ceiling(newCap, B) + 1 entries, so capacity() >= newCap |
| MfVectors.MfVector.constructor | mf_vector.hpp:325-330 | empty, only the sentinel, capacity B * nBlocks |
| MfVectors.MfVector.Fill | mf_vector.hpp:331-341 | contents are count copies of v |
| MfVectors.MfVector.FromSeq | mf_vector.hpp:342-364 | contents are the given range |
| MfVectors.MfVector.Take | mf_vector.hpp:365-382 | the new vector has the donor's contents, and the donor is left empty and valid |
| MfVectors.MfVector.PushBack | mf_vector.hpp:419-440 | contents gain x at the end; existing blocks stay where they were |
| MfVectors.MfVector.PopBack | mf_vector.hpp:441-449 | contents lose their last element, and no block is added |
| MfVectors.MfVector.Clear | mf_vector.hpp:390-396 | no elements, and only the sentinel remains |
| MfVectors.MfVector.Swap | mf_vector.hpp:689-693 | the two vectors exchange contents and blocks |
| MfVectors.MfVector.Adopt | mf_vector.hpp:539-566 | the vector takes over a given index, size and allocation |
| MfVectors.MfVector.Elements | mf_vector.hpp:351-364 | reading the elements in order yields Contents() |
| MfVectors.MfVector.AppendAll | mf_vector.hpp:513-532 | contents gain s at the end |
| MfVectors.MfVector.Assign | mf_vector.hpp:513-520 | contents become n copies of v |
| MfVectors.MfVector.PadTo | mf_vector.hpp:627-640 | pads with copies of v up to n elements, or leaves contents alone when already that long |
| MfVectors.MfVector.TruncateTo | mf_vector.hpp:627-640 | contents become the first min(n, size) elements |
| MfVectors.MfVector.AssignSeq | mf_vector.hpp:521-532 | contents become s |
| MfVectors.MfVector.Resize | mf_vector.hpp:627-640 | contents become the first n, or the old contents padded with v to n |
| MfVectors.MfVector.CopyAssign | mf_vector.hpp:533-538 | contents become the other's (self-assignment keeps them) |
| MfVectors.MfVector.MoveAssign | mf_vector.hpp:539-566 | contents become the other's; a distinct donor is left empty |
| MfVectors.MfVector.MoveOne | mf_vector.hpp:745-763 | one forward step: the target cell gets the source cell, and both iterators advance one position |
| MfVectors.MfVector.MoveOneBack | mf_vector.hpp:745-763 | one backward step: both iterators go back one position, then the target cell gets the source cell |
| MfVectors.MfVector.MoveForward | mf_vector.hpp:755-758 | the construction loop of MakeRoom: the cells [to, to + count) get the cells from `from` |
| MfVectors.MfVector.MoveBackward | mf_vector.hpp:759-760 | std::move_backward: the cells [first + d, last + d) get [first, last) |
| MfVectors.MfVector.MakeRoom | mf_vector.hpp:745-763 | size grows by n; the returned iterator is at the same position; elements before it are unchanged, and those from it on start n later |
| MfVectors.MfVector.GrowTo | mf_vector.hpp:748-752 | after Grow(size + n) there are exactly Ceiling(size + n, B) blocks, the elements are unchanged, and begin() + p is at p |
| MfVectors.MfVector.SetSize | mf_vector.hpp:761 | the size field becomes n |
| MfVectors.MfVector.OpenCells | mf_vector.hpp:753-760 | the two moves: cells before p are unchanged, and the old [p, size) now lies at [p + n, size + n) |
| MfVectors.MfVector.MoveTail | mf_vector.hpp:753-758 | the last nu elements are constructed n cells on; `from` ends at size - nu |
| MfVectors.MfVector.EndMinus | mf_vector.hpp:205-209 | end() - k is defined and at position size - k |
| MfVectors.MfVector.WriteRun | mf_vector.hpp:583-626 | the cells from the iterator on hold s; the other cells are unchanged |
| MfVectors.MfVector.Emplace | mf_vector.hpp:427-433 | contents are the old ones with x at the iterator's position, and the result points at it |
| MfVectors.MfVector.InsertFill | mf_vector.hpp:583-593 | contents are the old ones with n copies of v at the position |
| MfVectors.MfVector.InsertSeq | mf_vector.hpp:613-626 | contents are the old ones with s at the position |
| MfVectors.MfVector.Rotate | mf_vector.hpp:594-612 | std::rotate: the range from first becomes [middle, end) followed by [first, middle) |
| MfVectors.MfVector.Rotated | mf_vector.hpp:594-612 | the rotated order of the elements from first |
| MfVectors.MfVector.InsertRange | mf_vector.hpp:594-612 | push_back every element, then rotate: contents are the old ones with s at the position |
| MfVectors.MfVector.EraseRange | mf_vector.hpp:491-505 | for a non-empty range, the elements in [first, last) are removed and blocks are shrunk to Ceiling(size, B) |
| MfVectors.MfVector.MoveDown | mf_vector.hpp:499 | std::move(l, end(), f): the cells from out get the run [first, last) |
| MfVectors.MfVector.Erase | mf_vector.hpp:491-505 | corrected erase: [first, last) removed; the result is at first's position and equals end() when it is the end |
| MfVectors.MfVector.EraseAsWritten | mf_vector.hpp:491-505 | the same contents, but the result is `first` itself, made before Shrink |
| MfVectors.MfVector.EraseAt | mf_vector.hpp:506-510 | erase(position): the element at the position is removed |
| StaticVectors.CopyInsertGuardAsWrittenIsWrong | static_vector.hpp:268-277 | GoodIter refuses insert(begin(), v) into an empty vector and admits an insert into a full one |
| StaticVectors.RangeInsertGuardAsWrittenIsWrong | static_vector.hpp:322-341 | n <= Capacity admits 6 more elements into a vector of capacity 10 that holds 5; the corrected guard implies the written one |
| StaticVectors.StaticVector.constructor | static_vector.hpp:43 | empty |
| StaticVectors.StaticVector.Fill | static_vector.hpp:76-81 | contents are n copies of v |
| StaticVectors.StaticVector.FromSeq | static_vector.hpp:46-97 | contents are the given range (range, copy, move and initializer-list constructors) |
| StaticVectors.StaticVector.Get | static_vector.hpp:148-167 | operator[] yields element i |
| StaticVectors.StaticVector.At | static_vector.hpp:148-167 | at() is in range exactly when i < size, and then yields element i |
| StaticVectors.StaticVector.Front | static_vector.hpp:171-180 | front() is the first element |
| StaticVectors.StaticVector.Back | static_vector.hpp:169-170 | back() is the last element |
| StaticVectors.StaticVector.Reserve | static_vector.hpp:199-203 | reserve(n) only asserts n <= capacity(), which is always Capacity, and changes nothing |
| StaticVectors.StaticVector.PushBack | static_vector.hpp:214-215 | x is appended in the first free cell; no other cell changes |
| StaticVectors.StaticVector.PopBack | static_vector.hpp:208-213 | the last element is dropped |
| StaticVectors.StaticVector.Clear | static_vector.hpp:216-220 | no elements |
| StaticVectors.StaticVector.PadTo | static_vector.hpp:366-379 | pads with v up to n elements |
| StaticVectors.StaticVector.AppendAll | static_vector.hpp:83-97 | s is appended |
| StaticVectors.StaticVector.Elements | static_vector.hpp:46-57 | reading the elements in order yields Contents() |
| StaticVectors.StaticVector.Assign | static_vector.hpp:100-105 | contents become n copies of v |
| StaticVectors.StaticVector.AssignSeq | static_vector.hpp:106-120 | contents become s |
| StaticVectors.StaticVector.CopyAssign | static_vector.hpp:121-126 | contents become the other's |
| StaticVectors.StaticVector.MoveAssign | static_vector.hpp:127-138 | contents become the other's (unless the cells are the same) |
| StaticVectors.StaticVector.Swap | static_vector.hpp:380-383 | the two vectors exchange contents |
| StaticVectors.StaticVector.Resize | static_vector.hpp:366-379 | contents become the first n, or the old ones padded with v to n |
| StaticVectors.StaticVector.MakeRoom | static_vector.hpp:398-407 | cells before p are unchanged, and the old [p, size) now lies at [p + n, size + n) |
| StaticVectors.StaticVector.FillCell | static_vector.hpp:413-422 | exactly cell pos becomes v; it is assigned when pos < size and constructed otherwise |
| StaticVectors.StaticVector.Emplace | static_vector.hpp:246-259 | x is inserted at pos; it is constructed when pos is the end and assigned otherwise |
| StaticVectors.StaticVector.Insert | static_vector.hpp:278-291 | corrected copy insert: x is inserted at pos under the guard emplace uses |
| StaticVectors.StaticVector.InsertAsWritten | static_vector.hpp:268-277 | the same effect, under GoodIter together with room for one more element |
| StaticVectors.StaticVector.FillRun | static_vector.hpp:292-365 | cells [p, p + \|s\|) hold s; the others are unchanged |
| StaticVectors.StaticVector.InsertFill | static_vector.hpp:292-306 | n copies of v are inserted at pos |
| StaticVectors.StaticVector.InsertSeq | static_vector.hpp:349-365 | s is inserted at pos (initializer-list and corrected random-access range insert) |
| StaticVectors.StaticVector.InsertInputRange | static_vector.hpp:310-321 | corrected: insert(p++, *first++) for each element, with the corrected single-element insert, leaves s at pos, in order |
| StaticVectors.StaticVector.EraseAt | static_vector.hpp:221-229 | the element at pos is removed |
| StaticVectors.StaticVector.EraseRange | static_vector.hpp:230-245 | [first, last) is removed; an empty range changes nothing |
| StaticVectors.Spliced | static_vector.hpp:322-341 | MakeRoom followed by writing s at p gives the elements before p, then s, then the rest |
| StaticDeques.Centered | static_deque.hpp:597-602 | a centred run of n cells fits, and starts at (cells - n) / 2 |
| StaticDeques.CenteredBalanced | static_deque.hpp:597-613 | a centred run leaves as many free cells in front as behind, or one fewer; it has a free cell behind while any is free, and one in front exactly while two are free |
| StaticDeques.SlidesBackAsWritten | static_deque.hpp:585-596 | wherever MakeRoom as written works, the corrected choice slides the back exactly when the source does |
| StaticDeques.MakeRoomGuardAsWrittenIsWrong | static_deque.hpp:585-596 | with Capacity 2, element in cell 0 and an insert at 0, MakeRoom as written fails its assertion although two cells are free; the corrected guard admits all the written one does |
| StaticDeques.RoomForOne | static_deque.hpp:332-350 | one free cell is enough for the corrected MakeRoom(p, 1) |
| StaticDeques.PushFrontGuardAsWrittenIsWrong | static_deque.hpp:174-188 | with Capacity 2 and two elements from cell 0, push_front as written has no cell before _begin although a cell is free |
| StaticDeques.InputInsertAsWrittenMisorders | static_deque.hpp:369-379 | inserting [7, 8] at the front of [1, 2] (Capacity 3) gives [7, 1, 8, 2] |
| StaticDeques.InputInsertStep | static_deque.hpp:369-379 | one step of the as-written input insert |
| StaticDeques.ClosedFront | static_deque.hpp:484-510 | after the front of the deque slides back over the gap, the elements are those before first followed by those from last |
| StaticDeques.ClosedBack | static_deque.hpp:484-510 | after the tail slides down over the gap, the elements are those before first followed by those from last |
| StaticDeques.Spliced | static_deque.hpp:381-421 | opening a gap and filling it with s gives the elements before pos, then s, then the rest |
| StaticDeques.OpenedBack | static_deque.hpp:554-568 | after MakeRoomAfter, the elements are unchanged before p and start n later from p |
| StaticDeques.OpenedFront | static_deque.hpp:569-584 | after MakeRoomBefore, the elements before p start n earlier, and those from p are unchanged |
| StaticDeques.StaticDeque.constructor | static_deque.hpp:66-70 | empty, at Centered(1) |
| StaticDeques.StaticDeque.Fill | static_deque.hpp:71-82 | contents are count copies of v, centred |
| StaticDeques.StaticDeque.FromSeq | static_deque.hpp:96-141 | contents are s, centred (copy, move and initializer-list constructors) |
| StaticDeques.StaticDeque.FromInput | static_deque.hpp:83-93 | contents are s (input-iterator range constructor) |
| StaticDeques.StaticDeque.Get | static_deque.hpp:217-226 | operator[] yields element i |
| StaticDeques.StaticDeque.At | static_deque.hpp:238-247 | at() is in range exactly when i < size(), and then yields element i |
| StaticDeques.StaticDeque.Front | static_deque.hpp:248-257 | front() is the first element |
| StaticDeques.StaticDeque.Back | static_deque.hpp:258-267 | back() is the last element |
| StaticDeques.StaticDeque.Clear | static_deque.hpp:146-150 | no elements, both pointers at Centered(0) |
| StaticDeques.StaticDeque.Recenter | static_deque.hpp:160-172 | contents unchanged, now starting at Centered(size) |
| StaticDeques.StaticDeque.PushBack | static_deque.hpp:195-209 | x is appended; the front moves only when the back was at the last cell, and then to Centered(size) |
| StaticDeques.StaticDeque.PushFrontAsWritten | static_deque.hpp:174-188 | under its guard, x is prepended; _begin steps back one cell, or, when it was at FirstSpace(), ends one cell before Centered(size()) |
| StaticDeques.StaticDeque.PushFront | static_deque.hpp:174-188 | corrected: whenever a cell is free, x is prepended; where the source works (Centered(size()) > 0) _begin ends where the source puts it, one cell before Centered(size()); only when Centered(size()) is FirstSpace() do the elements slide one cell on instead |
| StaticDeques.StaticDeque.SlideTo | static_deque.hpp:160-172 | contents unchanged, now starting at nb |
| StaticDeques.StaticDeque.PopFront | static_deque.hpp:189-194 | the first element is dropped |
| StaticDeques.StaticDeque.PopBack | static_deque.hpp:210-215 | the last element is dropped |
| StaticDeques.StaticDeque.PadTo | static_deque.hpp:422-437 | pads with v up to n elements |
| StaticDeques.StaticDeque.AppendInPlace | static_deque.hpp:96-141 | s is appended without moving the front |
| StaticDeques.StaticDeque.AppendAll | static_deque.hpp:83-93 | s is appended, re-centring as needed |
| StaticDeques.StaticDeque.Elements | static_deque.hpp:96-111 | reading the elements in order yields Contents() |
| StaticDeques.StaticDeque.Assign | static_deque.hpp:281-288 | contents become n copies of v, centred |
| StaticDeques.StaticDeque.AssignSeq | static_deque.hpp:289-296 | contents become s, centred |
| StaticDeques.StaticDeque.AssignInput | static_deque.hpp:297-307 | contents become s |
| StaticDeques.StaticDeque.CopyAssign | static_deque.hpp:308-313 | contents become the other's |
| StaticDeques.StaticDeque.MoveAssign | static_deque.hpp:314-326 | contents become the other's, centred |
| StaticDeques.StaticDeque.Swap | static_deque.hpp:438-441 | the two deques exchange contents |
| StaticDeques.StaticDeque.Resize | static_deque.hpp:422-437 | contents become the first n, or the old ones padded with v to n |
| StaticDeques.StaticDeque.MakeRoomAfter | static_deque.hpp:554-568 | the cells from p move n on; _end grows by n; the result is p |
| StaticDeques.StaticDeque.MakeRoomBefore | static_deque.hpp:569-584 | the cells before p move n back; _begin drops by n; the result is p - n |
| StaticDeques.StaticDeque.OpenBack | static_deque.hpp:554-568 | the back branch stated on the elements: those before p are unchanged, and those from p start n later |
| StaticDeques.StaticDeque.OpenFront | static_deque.hpp:569-584 | the front branch stated on the elements: those before p start n earlier, and the rest are unchanged |
| StaticDeques.StaticDeque.MakeRoom | static_deque.hpp:585-596 | corrected: the size grows by n; the gap is at the same element index; the elements around it are kept; the back slides exactly when SlidesBack holds |
| StaticDeques.StaticDeque.FillCell | static_deque.hpp:614-623 | exactly cell pos becomes v; it is assigned when it lay in [b, e) and constructed otherwise |
| StaticDeques.StaticDeque.FillRun | static_deque.hpp:351-421 | cells [t, t + \|s\|) hold s; the others are unchanged |
| StaticDeques.StaticDeque.InsertSeq | static_deque.hpp:381-421 | s is inserted at pos; the front holds when the back slid and moves by \|s\| otherwise |
| StaticDeques.StaticDeque.InsertFill | static_deque.hpp:351-365 | n copies of v are inserted at pos |
| StaticDeques.StaticDeque.Insert | static_deque.hpp:332-336 | x is inserted at pos |
| StaticDeques.StaticDeque.InsertMove | static_deque.hpp:337-350 | x is inserted at pos; it is assigned when the cell was live and constructed otherwise |
| StaticDeques.StaticDeque.Emplace | static_deque.hpp:268-278 | x is inserted at pos; it is constructed exactly at an edge |
| StaticDeques.StaticDeque.InsertInputRange | static_deque.hpp:369-379 | corrected: s is inserted at pos, in order, and the result is the first inserted element |
| StaticDeques.StaticDeque.InsertInputRangeAsWritten | static_deque.hpp:369-379 | the deque becomes InputInsertAsWritten of the old state, and the result is pos + \|s\| |
| StaticDeques.StaticDeque.InsertNext | static_deque.hpp:376-377 | one insert(position++, *first++) takes the state one step of InputInsertAsWritten on |
| StaticDeques.StaticDeque.EraseRange | static_deque.hpp:484-510 | [first, last) is removed; the shorter side slides; an empty range changes nothing |
| StaticDeques.StaticDeque.CloseFront | static_deque.hpp:484-510 | the front branch: _end is kept, and the result is last |
| StaticDeques.StaticDeque.CloseBack | static_deque.hpp:484-510 | the back branch: _begin is kept, and the result is first |
| StaticDeques.StaticDeque.EraseAt | static_deque.hpp:511-514 | the element at pos is removed |

## Left out

- Assertions: `FRYSTL_ASSERT` and the C++ preconditions on callers become `requires` clauses. Throwing `std::out_of_range` from `at()` is the `OutOfRange` result.
- Object lifetime: destructor calls, placement new versus assignment, and `std::aligned_storage` are not modelled. `CellWrite` records only whether a cell was assigned or constructed.
- Exceptions: the rollback after `bad_alloc` in `Grow` and element constructors that throw are not modelled.
- Integer width: `size_t` and `unsigned` wrap-around is not modelled, including `num + denom - 1` in `Ceiling`.
- QuotientRoundedUp: it is called by `mf_vector::reserve` and `Shrink` but is not defined in the headers modelled. It is modelled as `Ceiling`.
- MFVectorDummyEnd: the shared dummy's address is modelled as the `Sentinel` slot.
- Iterator types: const versus non-const iterators, reverse iterators, `operator->`, `MakeIterator` and the `cbegin`/`crbegin` family are not modelled. Iterators are values; the static containers' iterators are cell numbers.
- Diff: the difference formula is modelled on positions. This is defined for iterators in block form, which is what the container hands out.
- Rotate: `std::rotate` in the mf_vector range insert is modelled by its effect, not by the standard library's algorithm.
- Swap: the static containers' `swap` through `std::swap` is specified only as exchanging contents.
- MfVectors.MfVector.MoveAssign: the move assignment from another block size reaches the donor through a `reinterpret_cast` pointer, so its `block_size()` test compares this type's block size with itself (mf_vector.hpp:548-555, 695-697). It therefore always runs `clear(); swap(*pOther)`, and this vector then reads the donor's blocks with its own `B`. That raw-memory reinterpretation is not modelled. When the block sizes differ, the model moves the elements one by one and clears the donor. The outcome is what tests/test-mfv.cpp:358-361 checks: the donor's elements, and an empty donor.
- StaticDeques.StaticDeque.Emplace: requires `begin() <= pos <= end()`, which this emplace does not assert. The move insert beside it does assert it, and outside that range MakeRoom has no meaning.
- StaticVectors.StaticVector.InsertAsWritten: requires room for one more element besides the source's GoodIter guard. Without that room the source writes past the array.
- StaticDeques.StaticDeque.PushFrontAsWritten: requires PushFrontGuardAsWritten. Outside it the source writes before the first cell.
- StaticVectors.StaticVector.InsertInputRange: each inner insert is the corrected single-element insert, under RangeInsertGuard. When the iterator's reference type is `value_type&`, the source's loop calls the copy insert, whose GoodIter assertion refuses a position at begin() and checks no room (Findings, row 1); for those iterators the source refuses an input-range insert at begin() that the model accepts. When the elements must be converted to `value_type`, the loop reaches the move insert (static_vector.hpp:279-291) instead, which admits begin() and checks room, as the model does.
- StaticDeques.StaticDeque.InsertInputRange: it returns the first inserted element, as std::deque does, whose semantics the header claims (static_deque.hpp:24-25). The source returns the advanced position, pos + |s| when nothing slid; InsertInputRangeAsWritten keeps that result (Findings, row 5).
- MfVectors.MfVector.Reserve, MfVectors.MfVector.AppendBlock and MfVectors.MfVector.constructor: the `std::vector` allocation of the block index follows one policy here. The constructor allocates `nBlocks` + 1 entries, AppendBlock doubles the allocation when it is full, and Reserve raises it to exactly Ceiling(newCap, B) + 1. The standard promises only at least that much.
- StaticDeques.StaticDeque.InsertInputRangeAsWritten: each inner insert makes room as the corrected MakeRoom does. The as-written MakeRoom guard is a separate finding.
- Concurrency: none in the source.
- Tests: the test programs, the 1.5 GB allocation test and `SelfCount` instrumentation are not modelled. One iterator walk of tests/test-mfv.cpp is stated as IteratorScenario.

## Findings

| source | as written | input that shows it | evidently intended | confidence | as-written member | corrected member |
|---|---|---|---|---|---|---|
| static_vector.hpp:268-277 | the copy insert asserts GoodIter(position), that is begin() < position <= end() | insert(begin(), v) on an empty vector is refused; insert(end(), v) on a full vector is admitted and writes past the cells | the guard of emplace and the move insert: begin() <= position <= end() and size() < Capacity | not executed | StaticVectors.CopyInsertGuardAsWrittenIsWrong, StaticVectors.StaticVector.InsertAsWritten | StaticVectors.StaticVector.Insert, and StaticVectors.StaticVector.InsertInputRange for iterators whose reference type is `value_type&` |
| static_vector.hpp:322-341 | the random-access range insert asserts only n <= Capacity | capacity 10, size 5, inserting 6 elements | size() + n <= Capacity | not executed | StaticVectors.RangeInsertGuardAsWrittenIsWrong | StaticVectors.StaticVector.InsertSeq |
| static_deque.hpp:174-188 | push_front re-centres when _begin is at FirstSpace(), then constructs at _begin - 1 | Capacity 2: push_front(a), push_back(b), push_front(c); Recenter leaves _begin at cell 0 and c is written before it | re-centre as written when Centered(size()) > 0; when Centered(size()) is FirstSpace(), slide the elements one cell on so the new element fits in front (a free cell exists) | not executed | StaticDeques.PushFrontGuardAsWrittenIsWrong, StaticDeques.StaticDeque.PushFrontAsWritten | StaticDeques.StaticDeque.PushFront |
| static_deque.hpp:585-596 | MakeRoom falls back to MakeRoomBefore, whose assertion at line 576 fails when the front lacks n cells, even if the back has room | Capacity 2, one element in cell 0, insert at begin() | slide the back whenever the front has no room | not executed | StaticDeques.MakeRoomGuardAsWrittenIsWrong | StaticDeques.StaticDeque.MakeRoom |
| static_deque.hpp:369-379 | the input-iterator range insert does insert(position++, *first++) without updating position when the front slides, and returns the advanced position | Capacity 3, [1, 2] in cells [2, 4), inserting [7, 8] at the front gives [7, 1, 8, 2]; inserting at end() with room behind returns pos + 2, past the inserted elements | the elements in order: [7, 8, 1, 2], and the result at the first inserted element, as in std::deque (static_deque.hpp:24-25) | not executed | StaticDeques.InputInsertAsWrittenMisorders, StaticDeques.StaticDeque.InsertInputRangeAsWritten | StaticDeques.StaticDeque.InsertInputRange |
| mf_vector.hpp:491-505 | erase(first, last) returns `f`, made before Shrink releases blocks | B = 1, one element, erase(begin(), end()): the returned iterator caches the released block instead of the sentinel that end() has | an iterator made after Shrink, begin() + (first - begin()) | not executed | MfVectors.EraseAsWrittenDangles, MfVectors.MfVector.EraseAsWritten | MfVectors.MfVector.Erase |
