/** static_vector<T, Capacity>: a vector with a fixed capacity whose cells
    live inside the object. `_elem` is an array of Capacity cells and `_size`
    counts the live ones, which are always the first `_size` cells.
    Iterators are pointers into `_elem`; here a position is the cell number
    (begin() is 0, end() is size). */
module StaticVectors {
  import opened Defines

  /** The guard of the single-element copy insert as written:
      GoodIter(position), that is begin() < position <= end(). */
  predicate CopyInsertGuardAsWritten(pos: nat, size: nat)
  {
    0 < pos <= size
  }

  /** The guard every other single-element insert (emplace, move insert)
      checks: a free cell, and begin() <= position <= end(). */
  predicate InsertGuard(pos: nat, size: nat, capacity: nat)
  {
    size < capacity && pos <= size
  }

  /** The copy insert's guard is wrong both ways: it refuses insert(begin(), v)
      on a vector with room (size 0, capacity 1), and it admits an insert into
      a full vector (capacity 10, size 10, at end()), whose MakeRoom writes
      past the last cell. */
  lemma CopyInsertGuardAsWrittenIsWrong()
    ensures !CopyInsertGuardAsWritten(0, 0) && InsertGuard(0, 0, 1)
    ensures CopyInsertGuardAsWritten(10, 10) && !InsertGuard(10, 10, 10)
  {
  }

  /** The guard of the random-access range insert as written: first <= last
      and n = last - first <= Capacity. */
  predicate RangeInsertGuardAsWritten(n: nat, capacity: nat)
  {
    n <= capacity
  }

  /** What inserting n elements needs: room for all of them, and
      begin() <= position <= end(). */
  predicate RangeInsertGuard(pos: nat, n: nat, size: nat, capacity: nat)
  {
    size + n <= capacity && pos <= size
  }

  /** The range insert's guard ignores the elements already there: with
      capacity 10 and size 5 it admits 6 more, one past the last cell. */
  lemma RangeInsertGuardAsWrittenIsWrong()
    ensures RangeInsertGuardAsWritten(6, 10) && !RangeInsertGuard(5, 6, 5, 10)
    ensures forall pos: nat, n: nat, size: nat, capacity: nat ::
              RangeInsertGuard(pos, n, size, capacity) ==> RangeInsertGuardAsWritten(n, capacity)
  {
  }

  class StaticVector<T(0)> {
    /** The template parameter Capacity, which capacity() and max_size()
        return. */
    const Capacity: nat
    /** _elem: the cells. */
    const elem: array<T>
    /** _size. */
    var size: nat

    ghost predicate Valid()
      reads this
    {
      elem.Length == Capacity && size <= Capacity
    }

    /** The elements, begin() to end(). */
    ghost function Contents(): seq<T>
      reads this, elem
      requires Valid()
    {
      elem[..size]
    }

    /** The default constructor: no elements. */
    constructor (capacity: nat)
      ensures Valid() && Capacity == capacity && fresh(elem)
      ensures Contents() == []
    {
      Capacity := capacity;
      elem := new T[capacity];
      size := 0;
    }

    /** The fill constructors: n push_backs of value (of T() for the one
        without a value); each push_back checks for room. */
    constructor Fill(capacity: nat, n: nat, v: T)
      requires n <= capacity
      ensures Valid() && Capacity == capacity && fresh(elem)
      ensures Contents() == Repeat(v, n)
    {
      Capacity := capacity;
      elem := new T[capacity];
      size := 0;
      new;
      PadTo(n, v);
    }

    /** The range, initializer-list, copy and move constructors: each
        element of the source constructed into the next cell. The
        initializer-list and cross-capacity constructors check that the
        source fits; the range constructor's emplace_back checks it cell by
        cell. */
    constructor FromSeq(capacity: nat, s: seq<T>)
      requires |s| <= capacity
      ensures Valid() && Capacity == capacity && fresh(elem)
      ensures Contents() == s
    {
      Capacity := capacity;
      elem := new T[capacity];
      size := 0;
      new;
      AppendAll(s);
    }

    /** operator[]: the element at i, which must exist. */
    function Get(i: nat): (x: T)
      reads this, elem
      requires Valid() && i < size
      ensures x == Contents()[i]
    {
      elem[i]
    }

    /** at(): the element at i, or std::out_of_range when i >= size(). */
    function At(i: nat): (r: Checked<T>)
      reads this, elem
      requires Valid()
      ensures i < size <==> r.Ok?
      ensures r.Ok? ==> r.value == Contents()[i]
    {
      if i < size then Ok(elem[i]) else OutOfRange
    }

    /** front(): the first element of a non-empty vector. */
    function Front(): (x: T)
      reads this, elem
      requires Valid() && size > 0
      ensures x == Contents()[0]
    {
      elem[0]
    }

    /** back(): data()[_size - 1], the last element. */
    function Back(): (x: T)
      reads this, elem
      requires Valid() && size > 0
      ensures x == Contents()[|Contents()| - 1]
    {
      elem[size - 1]
    }

    /** reserve(n): storage is fixed, so it only checks n <= capacity()
        and changes nothing. */
    method Reserve(n: nat)
      requires Valid() && n <= Capacity
      ensures Valid() && Contents() == old(Contents())
    {
    }

    /** push_back and emplace_back: construct the element in the first free
        cell and count it. */
    method PushBack(x: T)
      requires Valid() && size < Capacity
      modifies this, elem
      ensures Valid() && Contents() == old(Contents()) + [x]
      ensures elem[..] == old(elem[..])[old(size) := x]
    {
      elem[size] := x;
      size := size + 1;
    }

    /** pop_back(): un-count the last element. */
    method PopBack()
      requires Valid() && size > 0
      modifies this
      ensures Valid() && Contents() == old(Contents())[..old(size) - 1]
    {
      size := size - 1;
    }

    /** clear(): pop_back() while there are elements. */
    method Clear()
      requires Valid()
      modifies this
      ensures Valid() && Contents() == []
    {
      while size > 0
        invariant Valid()
      {
        PopBack();
      }
    }

    /** The loop `while (size() < n) push_back(val)` of assign and resize. */
    method PadTo(n: nat, v: T)
      requires Valid() && n <= Capacity
      modifies this, elem
      ensures Valid()
      ensures n <= old(size) ==> Contents() == old(Contents())
      ensures old(size) <= n ==> Contents() == old(Contents()) + Repeat(v, n - old(size))
    {
      while size < n
        invariant Valid() && old(size) <= size && (size == old(size) || size <= n)
        invariant Contents() == old(Contents()) + Repeat(v, size - old(size))
        decreases n - size
      {
        PushBack(v);
        assert Repeat(v, size - 1 - old(size)) + [v] == Repeat(v, size - old(size));
      }
      assert old(Contents()) + Repeat(v, 0) == old(Contents());
    }

    /** A push_back of every element of s, in order. */
    method AppendAll(s: seq<T>)
      requires Valid() && size + |s| <= Capacity
      modifies this, elem
      ensures Valid() && Contents() == old(Contents()) + s
    {
      var i := 0;
      while i < |s|
        invariant i <= |s| && Valid() && size == old(size) + i
        invariant Contents() == old(Contents()) + s[..i]
      {
        PushBack(s[i]);
        assert s[..i + 1] == s[..i] + [s[i]];
        i := i + 1;
      }
      assert s[..|s|] == s;
    }

    /** The elements, read one by one, as the range-for loops over a donor
        read them. */
    method Elements() returns (s: seq<T>)
      requires Valid()
      ensures s == Contents()
    {
      s := elem[..size];
    }

    /** assign(n, val): clear(), then push_back(val) while size() < n. */
    method Assign(n: nat, v: T)
      requires Valid() && n <= Capacity
      modifies this, elem
      ensures Valid() && Contents() == Repeat(v, n)
    {
      Clear();
      PadTo(n, v);
    }

    /** assign(first, last) and assign(initializer_list): clear(), then
        push_back every element. */
    method AssignSeq(s: seq<T>)
      requires Valid() && |s| <= Capacity
      modifies this, elem
      ensures Valid() && Contents() == s
    {
      Clear();
      AppendAll(s);
    }

    /** operator=(const static_vector&): unless other is this vector,
        assign(other.begin(), other.end()). Both have the same capacity. */
    method CopyAssign(other: StaticVector<T>)
      requires Valid() && other.Valid() && other.Capacity == Capacity
      modifies this, elem
      ensures Valid() && Contents() == old(other.Contents())
    {
      if other != this {
        var s := other.Elements();
        AssignSeq(s);
      }
    }

    /** operator=(static_vector&&): unless other's cells are this vector's
        (other is this vector), clear(), move-construct other's elements
        into the cells from begin() on, and take other's size. The
        moved-from vector keeps its size. */
    method MoveAssign(other: StaticVector<T>)
      requires Valid() && other.Valid() && other.Capacity == Capacity
      requires other != this ==> other.elem != elem
      modifies this, elem
      ensures Valid() && Contents() == old(other.Contents())
    {
      if other != this {
        Clear();
        var s := other.Elements();
        AssignSeq(s);
      }
    }

    /** swap(x): std::swap(*this, x), a move construction and two move
        assignments through a temporary; the contents are exchanged. */
    method Swap(other: StaticVector<T>)
      requires Valid() && other.Valid() && other.Capacity == Capacity
      requires other != this ==> other.elem != elem
      modifies this, elem, other, other.elem
      ensures Valid() && other.Valid()
      ensures Contents() == old(other.Contents()) && other.Contents() == old(Contents())
    {
      var mine := Elements();
      var tmp := new StaticVector.FromSeq(Capacity, mine);
      MoveAssign(other);
      other.MoveAssign(tmp);
    }

    /** resize(n, val): pop_back while n < size(), then push_back(val)
        while size() < n; resize(n) is the same with T(). */
    method Resize(n: nat, v: T)
      requires Valid() && n <= Capacity
      modifies this, elem
      ensures Valid()
      ensures n <= old(size) ==> Contents() == old(Contents())[..n]
      ensures old(size) <= n ==> Contents() == old(Contents()) + Repeat(v, n - old(size))
    {
      while n < size
        invariant Valid() && size <= old(size) && (size == old(size) || n <= size)
        invariant elem[..] == old(elem[..])
        decreases size
      {
        PopBack();
      }
      ghost var kept := size;
      assert Contents() == old(Contents())[..kept];
      PadTo(n, v);
    }

    /** MakeRoom(p, n): move-construct the last nu = min(end() - p, n)
        elements n cells on, into raw cells past the old end, then
        std::move_backward the rest of the tail [p, end() - nu) so that it
        ends at end(). The size is not changed. */
    method MakeRoom(p: nat, n: nat)
      requires Valid() && p <= size && size + n <= Capacity
      modifies elem
      ensures elem[..p] == old(elem[..p])
      ensures elem[p + n..size + n] == old(elem[p..size])
    {
      var nu: nat := if size - p < n then size - p else n;
      var f, t := size - nu, size - nu + n;
      ghost var before := elem[..];
      MoveRun(elem, t, t + nu, t - f, false);
      ghost var moved := elem[..];
      assert moved == Shifted(before, t, t + nu, t - f);
      MoveRun(elem, p + nu, f + nu, nu, true);
      ghost var after := elem[..];
      assert after == Shifted(moved, p + nu, f + nu, nu);
      OpenGap(before, moved, after, p, n, size, nu, f, t);
    }

    /** FillCell(pos, v): assign over a live element (pos < end()), or
        construct into a free cell. The value stored is the same. */
    method FillCell(pos: nat, v: T) returns (w: CellWrite)
      requires Valid() && pos < Capacity
      modifies elem
      ensures elem[..] == old(elem[..])[pos := v]
      ensures w == (if pos < size then Assigned else Constructed)
    {
      if pos < size {
        elem[pos] := v;
        w := Assigned;
      } else {
        elem[pos] := v;
        w := Constructed;
      }
    }

    /** emplace(position, args) and the move insert: MakeRoom(p, 1), then
        assign if p is below the old end and construct otherwise; count the
        element and return p. */
    method Emplace(pos: nat, x: T) returns (r: nat, w: CellWrite)
      requires Valid() && InsertGuard(pos, size, Capacity)
      modifies this, elem
      ensures Valid() && r == pos && size == old(size) + 1
      ensures Contents() == old(Contents()[..pos]) + [x] + old(Contents()[pos..])
      ensures w == (if pos < old(size) then Assigned else Constructed)
    {
      ghost var before, s0 := elem[..], size;
      MakeRoom(pos, 1);
      ghost var mid := elem[..];
      assert mid[..pos] == before[..pos] && mid[pos + 1..s0 + 1] == before[pos..s0];
      w := FillCell(pos, x);
      assert elem[..] == mid[..pos] + [x] + mid[pos + 1..];
      size := size + 1;
      Spliced(before, mid, elem[..], pos, [x], s0);
      r := pos;
    }

    /** The single-element copy insert, with the guard emplace and the move
        insert check: MakeRoom(p, 1), FillCell(p, val), count it, return p. */
    method Insert(pos: nat, x: T) returns (r: nat)
      requires Valid() && InsertGuard(pos, size, Capacity)
      modifies this, elem
      ensures Valid() && r == pos && size == old(size) + 1
      ensures Contents() == old(Contents()[..pos]) + [x] + old(Contents()[pos..])
    {
      var w;
      r, w := Emplace(pos, x);
    }

    /** The single-element copy insert as written: only GoodIter(position)
        is checked. The body is Insert's, so this model also needs a free
        cell and accepts begin() as Insert does; the guard itself is the
        subject of CopyInsertGuardAsWrittenIsWrong. */
    method InsertAsWritten(pos: nat, x: T) returns (r: nat)
      requires Valid() && CopyInsertGuardAsWritten(pos, size) && size < Capacity
      modifies this, elem
      ensures Valid() && r == pos && size == old(size) + 1
      ensures Contents() == old(Contents()[..pos]) + [x] + old(Contents()[pos..])
    {
      r := Insert(pos, x);
    }

    /** The FillCell loop shared by the fill, initializer-list and
        random-access range inserts: cells p .. p + |s| get s, in order,
        while the size is still the old one. */
    method FillRun(p: nat, s: seq<T>)
      requires Valid() && p + |s| <= Capacity
      modifies elem
      ensures elem[..] == old(elem[..p]) + s + old(elem[p + |s|..])
    {
      var i := 0;
      while i < |s|
        invariant i <= |s|
        invariant elem[..] == old(elem[..p]) + s[..i] + old(elem[p + i..])
      {
        var _ := FillCell(p + i, s[i]);
        assert s[..i + 1] == s[..i] + [s[i]];
        i := i + 1;
      }
    }

    /** Fill insert: n copies of val at position. */
    method InsertFill(pos: nat, n: nat, v: T) returns (r: nat)
      requires Valid() && RangeInsertGuard(pos, n, size, Capacity)
      modifies this, elem
      ensures Valid() && r == pos && size == old(size) + n
      ensures Contents() == old(Contents()[..pos]) + Repeat(v, n) + old(Contents()[pos..])
    {
      r := InsertSeq(pos, Repeat(v, n));
    }

    /** Initializer-list insert, and the random-access range insert with
        room for the new elements: MakeRoom(p, n), FillCell each new value
        into place, add n to the size, return p. */
    method InsertSeq(pos: nat, s: seq<T>) returns (r: nat)
      requires Valid() && RangeInsertGuard(pos, |s|, size, Capacity)
      modifies this, elem
      ensures Valid() && r == pos && size == old(size) + |s|
      ensures Contents() == old(Contents()[..pos]) + s + old(Contents()[pos..])
    {
      ghost var before, s0 := elem[..], size;
      MakeRoom(pos, |s|);
      ghost var mid := elem[..];
      assert mid[..pos] == before[..pos] && mid[pos + |s|..s0 + |s|] == before[pos..s0];
      FillRun(pos, s);
      assert elem[..] == mid[..pos] + s + mid[pos + |s|..];
      size := size + |s|;
      Spliced(before, mid, elem[..], pos, s, s0);
      r := pos;
    }

    /** The range insert for input iterators: insert(p++, *first++) for each
        element, then the original position. */
    method InsertInputRange(pos: nat, s: seq<T>) returns (r: nat)
      requires Valid() && RangeInsertGuard(pos, |s|, size, Capacity)
      modifies this, elem
      ensures Valid() && r == pos && size == old(size) + |s|
      ensures Contents() == old(Contents()[..pos]) + s + old(Contents()[pos..])
    {
      var i := 0;
      while i < |s|
        invariant i <= |s| && Valid() && size == old(size) + i
        invariant Contents() == old(Contents()[..pos]) + s[..i] + old(Contents()[pos..])
      {
        ghost var c := Contents();
        var _ := Insert(pos + i, s[i]);
        assert c[..pos + i] == old(Contents()[..pos]) + s[..i];
        assert c[pos + i..] == old(Contents()[pos..]);
        assert s[..i + 1] == s[..i] + [s[i]];
        i := i + 1;
      }
      assert s[..|s|] == s;
      r := pos;
    }

    /** erase(position): std::move(x + 1, end(), x), one element fewer,
        return x. The guard GoodIter(position + 1) means position < end(). */
    method EraseAt(pos: nat) returns (r: nat)
      requires Valid() && pos < size
      modifies this, elem
      ensures Valid() && r == pos && size == old(size) - 1
      ensures Contents() == old(Contents()[..pos]) + old(Contents()[pos + 1..])
    {
      var _ := MoveConstruct(elem, pos + 1, size, elem, pos);
      size := size - 1;
      assert elem[..size] == elem[..pos] + elem[pos..size];
      r := pos;
    }

    /** erase(first, last): a non-empty range must satisfy
        begin() <= first < last <= end(); the tail from last moves down to
        first and the size drops by last - first. An empty range changes
        nothing. Either way the result is first. */
    method EraseRange(first: nat, last: nat) returns (r: nat)
      requires Valid() && (first != last ==> first < last <= size)
      modifies this, elem
      ensures Valid() && r == first
      ensures first == last ==> Contents() == old(Contents())
      ensures first != last ==> size == old(size) - (last - first)
      ensures first != last ==> Contents() == old(Contents()[..first]) + old(Contents()[last..])
    {
      if first != last {
        var _ := MoveConstruct(elem, last, size, elem, first);
        size := size - (last - first);
        assert elem[..size] == elem[..first] + elem[first..size];
      }
      r := first;
    }
  }

  /** The elements of a spliced vector: MakeRoom leaves the cells before p
      alone and shifts the old elements from p by |s| cells (mid), then s
      is written from p on (after); the elements are prefix ++ s ++ suffix. */
  lemma Spliced<T>(before: seq<T>, mid: seq<T>, after: seq<T>, p: nat, s: seq<T>, size: nat)
    requires p <= size && size + |s| <= |before| == |mid|
    requires mid[..p] == before[..p] && mid[p + |s|..size + |s|] == before[p..size]
    requires after == mid[..p] + s + mid[p + |s|..]
    ensures after[..size + |s|] == before[..size][..p] + s + before[..size][p..]
  {
    assert after[..p] == mid[..p] && after[p..p + |s|] == s;
    assert after[p + |s|..size + |s|] == mid[p + |s|..size + |s|];
    assert after[..size + |s|] == after[..p] + after[p..p + |s|] + after[p + |s|..size + |s|];
  }
}
