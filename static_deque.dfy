/** static_deque<T, Capacity>: a deque with a fixed number of cells inside
    the object. There are TrueCap(Capacity) = 2 * (Capacity - 1) + 1 cells,
    `_elem`; the live elements are the cells [_begin, _end). New contents
    start in the middle so that Capacity - 1 more elements fit on either
    side of a single one. Iterators are pointers into `_elem`; here a
    position is the cell number, FirstSpace() is 0 and PastLastSpace() is
    TrueCap(Capacity). */
module StaticDeques {
  import opened Defines

  /** _trueCap: the number of cells. */
  function TrueCap(capacity: nat): nat
    requires capacity >= 1
  {
    2 * (capacity - 1) + 1
  }

  /** Centered(n): the front cell, FirstSpace() + Capacity - 1 - n/2, of a
      run of n cells placed in the middle. */
  function Centered(capacity: nat, n: nat): (start: nat)
    requires capacity >= 1 && n <= TrueCap(capacity)
    ensures start + n <= TrueCap(capacity)
    ensures start == (TrueCap(capacity) - n) / 2
  {
    capacity - 1 - n / 2
  }

  /** A centred run leaves as many free cells in front as behind it, or one
      fewer; while it has a free cell it has one behind it, and it has one
      in front exactly while two cells are free. */
  lemma {:induction false} CenteredBalanced(capacity: nat, n: nat)
    requires capacity >= 1 && n <= TrueCap(capacity)
    ensures var start := Centered(capacity, n);
            var back := TrueCap(capacity) - (start + n);
            start <= back <= start + 1
    ensures n < TrueCap(capacity) ==> Centered(capacity, n) + n < TrueCap(capacity)
    ensures Centered(capacity, n) > 0 <==> n + 1 < TrueCap(capacity)
  {
    DivMod(n, 2);
  }

  /** The choice MakeRoom makes: slide the back, when it is the shorter
      side and there is room behind it, and otherwise the front. */
  predicate BackIsShorter(begin: nat, end: nat, p: nat, n: nat, trueCap: nat)
  {
    end - p < p - begin && end + n <= trueCap
  }

  /** What MakeRoom as written needs: its front branch checks
      FirstSpace() <= begin() - n. */
  predicate MakeRoomGuardAsWritten(begin: nat, end: nat, p: nat, n: nat, trueCap: nat)
  {
    BackIsShorter(begin, end, p, n, trueCap) || n <= begin
  }

  /** The corrected choice: slide the back also when the front has no room
      for n cells. */
  predicate SlidesBack(begin: nat, end: nat, p: nat, n: nat, trueCap: nat)
  {
    end + n <= trueCap && (end - p < p - begin || begin < n)
  }

  /** What the corrected MakeRoom needs: room for n cells on one side. */
  predicate MakeRoomGuard(begin: nat, end: nat, n: nat, trueCap: nat)
  {
    n <= begin || end + n <= trueCap
  }

  /** Wherever MakeRoom as written works, the corrected choice slides the
      same side. */
  lemma SlidesBackAsWritten(begin: nat, end: nat, p: nat, n: nat, trueCap: nat)
    requires MakeRoomGuardAsWritten(begin, end, p, n, trueCap)
    ensures SlidesBack(begin, end, p, n, trueCap) <==> BackIsShorter(begin, end, p, n, trueCap)
  {
  }

  /** MakeRoom as written refuses an insert at the front of a deque whose
      only element sits in cell 0, although two cells are free behind it
      (Capacity 2); the corrected guard admits it, and admits everything the
      written one does. */
  lemma MakeRoomGuardAsWrittenIsWrong()
    ensures !MakeRoomGuardAsWritten(0, 1, 0, 1, TrueCap(2)) && MakeRoomGuard(0, 1, 1, TrueCap(2))
    ensures forall b: nat, e: nat, p: nat, n: nat, tc: nat ::
              b <= p <= e && MakeRoomGuardAsWritten(b, e, p, n, tc) ==> MakeRoomGuard(b, e, n, tc)
  {
  }

  /** One free cell on either side is enough for the corrected MakeRoom to
      make room for one element. */
  lemma RoomForOne(begin: nat, end: nat, trueCap: nat)
    requires begin <= end <= trueCap && end - begin < trueCap
    ensures MakeRoomGuard(begin, end, 1, trueCap)
  {
  }

  /** What push_front as written needs: after the Recenter it does when
      _begin == FirstSpace(), the cell before _begin must exist. */
  predicate PushFrontGuardAsWritten(capacity: nat, begin: nat, size: nat)
    requires capacity >= 1 && size <= TrueCap(capacity)
  {
    begin > 0 || Centered(capacity, size) > 0
  }

  /** push_front as written writes the cell before FirstSpace() when the
      deque holds 2 * (Capacity - 1) elements from cell 0: with Capacity 2,
      push_front a, push_back b, push_front c. It has a free cell, and the
      corrected push_front (PushFront) takes an element whenever there is
      a free cell. */
  lemma PushFrontGuardAsWrittenIsWrong()
    ensures 2 < TrueCap(2) && !PushFrontGuardAsWritten(2, 0, 2)
  {
  }

  /** The outcome of the range insert for input iterators as written: the
      elements after the insert, or Aborted when the position check of an
      insert fails. */
  datatype Outcome<T> = Done(contents: seq<T>) | Aborted

  /** The range insert for input iterators as written, on the coordinates:
      the cells [b, e) hold c and each element is inserted by
      insert(position++, *first++) at the cell p, which is not adjusted
      when an insert slides the front: the new element then sits at p - 1
      and p + 1 is past the old element at p. Each insert makes room as the
      corrected MakeRoom does. */
  function InputInsertAsWritten<T>(trueCap: nat, b: nat, e: nat, c: seq<T>, p: nat, s: seq<T>): (r: Outcome<T>)
    requires e == b + |c|
    decreases |s|
  {
    if |s| == 0 then Done(c)
    else if !(b <= p <= e) || !MakeRoomGuard(b, e, 1, trueCap) then Aborted
    else
      var k := p - b;
      var c' := c[..k] + [s[0]] + c[k..];
      if SlidesBack(b, e, p, 1, trueCap) then InputInsertAsWritten(trueCap, b, e + 1, c', p + 1, s[1..])
      else InputInsertAsWritten(trueCap, b - 1, e, c', p + 1, s[1..])
  }

  /** Inserting [7, 8] from input iterators at the front of [1, 2] (the
      cells [2, 4) with Capacity 3) gives [7, 1, 8, 2]: the first insert
      slides the front, so the second lands after the old first element,
      and the result is not [7, 8] followed by [1, 2]. */
  lemma {:induction false} InputInsertAsWrittenMisorders()
    ensures InputInsertAsWritten(TrueCap(3), 2, 4, [1, 2], 2, [7, 8]) == Done([7, 1, 8, 2])
    ensures InputInsertAsWritten(TrueCap(3), 2, 4, [1, 2], 2, [7, 8]).contents != [7, 8] + [1, 2]
  {
    assert !SlidesBack(2, 4, 2, 1, 5) && SlidesBack(1, 4, 3, 1, 5);
    assert [1, 2][..0] + [7] + [1, 2][0..] == [7, 1, 2];
    assert [7, 1, 2][..2] + [8] + [7, 1, 2][2..] == [7, 1, 8, 2];
    assert [7, 8][1..] == [8] && [8][1..] == [];
    assert InputInsertAsWritten(5, 1, 5, [7, 1, 8, 2], 4, []) == Done([7, 1, 8, 2]);
    assert InputInsertAsWritten(5, 1, 4, [7, 1, 2], 3, [8]) == Done([7, 1, 8, 2]);
    assert InputInsertAsWritten(5, 2, 4, [1, 2], 2, [7, 8]) == InputInsertAsWritten(5, 1, 4, [7, 1, 2], 3, [8]);
    assert ([7, 8] + [1, 2])[1] == 8 != [7, 1, 8, 2][1];
  }

  /** One step of InputInsertAsWritten: the insert at p, then the rest at
      p + 1. */
  lemma InputInsertStep<T>(trueCap: nat, b: nat, e: nat, c: seq<T>, p: nat, s: seq<T>,
                           b': nat, e': nat, c': seq<T>)
    requires e == b + |c| && |s| > 0 && b <= p <= e && MakeRoomGuard(b, e, 1, trueCap)
    requires c' == c[..p - b] + [s[0]] + c[p - b..]
    requires SlidesBack(b, e, p, 1, trueCap) ==> b' == b && e' == e + 1
    requires !SlidesBack(b, e, p, 1, trueCap) ==> b' == b - 1 && e' == e
    ensures e' == b' + |c'|
    ensures InputInsertAsWritten(trueCap, b, e, c, p, s) == InputInsertAsWritten(trueCap, b', e', c', p + 1, s[1..])
  {
  }

  /** The elements after the front branch of erase: the old cells [b, f)
      now end at l, and those from l on are where they were. */
  lemma ClosedFront<T>(before: seq<T>, after: seq<T>, b: nat, f: nat, l: nat, e: nat)
    requires b <= f <= l <= e <= |before| == |after|
    requires after[l - (f - b)..l] == before[b..f] && after[l..e] == before[l..e]
    ensures after[b + (l - f)..e] == before[b..e][..f - b] + before[b..e][l - b..]
  {
    assert after[b + (l - f)..e] == after[l - (f - b)..l] + after[l..e];
  }

  /** The elements after the back branch of erase: the cells before f are
      where they were and the old cells [l, e) now start at f. */
  lemma ClosedBack<T>(before: seq<T>, after: seq<T>, b: nat, f: nat, l: nat, e: nat)
    requires b <= f <= l <= e <= |before| == |after|
    requires after[b..f] == before[b..f] && after[f..f + (e - l)] == before[l..e]
    ensures after[b..e - (l - f)] == before[b..e][..f - b] + before[b..e][l - b..]
  {
    assert after[b..e - (l - f)] == after[b..f] + after[f..f + (e - l)];
  }

  /** The elements of the deque after an insert: the cells before the gap
      keep the old prefix, the gap holds s and the cells after it the old
      suffix. */
  lemma Spliced<T>(m: seq<T>, a: seq<T>, b: nat, t: nat, e: nat, s: seq<T>, pre: seq<T>, suf: seq<T>)
    requires b <= t && t + |s| <= e <= |m| == |a|
    requires a == m[..t] + s + m[t + |s|..]
    requires m[b..t] == pre && m[t + |s|..e] == suf
    ensures a[b..e] == pre + s + suf
  {
    assert a[b..e] == a[b..t] + a[t..t + |s|] + a[t + |s|..e];
  }

  /** The cells after MakeRoomAfter: before p, and the old cells [p, e)
      now from p + n on. */
  lemma OpenedBack<T>(before: seq<T>, after: seq<T>, b: nat, e: nat, p: nat, n: nat)
    requires b <= p <= e && e + n <= |before|
    requires after == Shifted(before, p + n, e + n, n)
    ensures after[b..p] == before[b..p] && after[p + n..e + n] == before[p..e]
  {
    forall k | b <= k < p
      ensures after[k] == before[k]
    {
      assert after[k] == Shifted(before, p + n, e + n, n)[k];
    }
    forall k | 0 <= k < e - p
      ensures after[p + n..e + n][k] == before[p..e][k]
    {
      assert after[k + p + n] == Shifted(before, p + n, e + n, n)[k + p + n];
    }
  }

  /** The cells after MakeRoomBefore: the old cells [b, p) now from b - n
      on, and those from p on where they were. */
  lemma OpenedFront<T>(before: seq<T>, after: seq<T>, b: nat, e: nat, p: nat, n: nat)
    requires n <= b <= p <= e <= |before|
    requires after == Shifted(before, b - n, p - n, -(n as int))
    ensures after[b - n..p - n] == before[b..p] && after[p..e] == before[p..e]
  {
    forall k | 0 <= k < p - b
      ensures after[b - n..p - n][k] == before[b..p][k]
    {
      assert after[k + b - n] == Shifted(before, b - n, p - n, -(n as int))[k + b - n];
    }
    forall k | p <= k < e
      ensures after[k] == before[k]
    {
      assert after[k] == Shifted(before, b - n, p - n, -(n as int))[k];
    }
  }

  class StaticDeque<T(0)> {
    /** The template parameter Capacity. */
    const Capacity: nat
    /** _elem: the cells. */
    const elem: array<T>
    /** _begin and _end. */
    var begin: nat
    var end: nat

    /** FirstSpace() <= _begin <= _end <= PastLastSpace(). */
    ghost predicate Valid()
      reads this
    {
      Capacity >= 1 && elem.Length == TrueCap(Capacity) && begin <= end <= elem.Length
    }

    /** The elements, begin() to end(); size() is end() - begin(). */
    ghost function Contents(): seq<T>
      reads this, elem
      requires Valid()
    {
      elem[begin..end]
    }

    /** The default constructor: empty, at Centered(1). */
    constructor (capacity: nat)
      requires capacity >= 1
      ensures Valid() && Capacity == capacity && fresh(elem)
      ensures Contents() == [] && begin == Centered(capacity, 1)
    {
      Capacity := capacity;
      elem := new T[TrueCap(capacity)];
      begin, end := Centered(capacity, 1), Centered(capacity, 1);
    }

    /** The fill constructors: count copies of value (of T() for the one
        without a value) in the centred cells. */
    constructor Fill(capacity: nat, count: nat, v: T)
      requires capacity >= 1 && count <= TrueCap(capacity)
      ensures Valid() && Capacity == capacity && fresh(elem)
      ensures Contents() == Repeat(v, count) && begin == Centered(capacity, count)
    {
      Capacity := capacity;
      elem := new T[TrueCap(capacity)];
      begin, end := Centered(capacity, count), Centered(capacity, count);
      new;
      PadTo(count, v);
    }

    /** The initializer-list, copy and move constructors and the range
        constructor for random-access iterators: Centered(n) for the n
        elements, then emplace_back (push_back) of each. The constructors
        from a deque of another capacity check that the donor fits. */
    constructor FromSeq(capacity: nat, s: seq<T>)
      requires capacity >= 1 && |s| <= TrueCap(capacity)
      ensures Valid() && Capacity == capacity && fresh(elem)
      ensures Contents() == s && begin == Centered(capacity, |s|)
    {
      Capacity := capacity;
      elem := new T[TrueCap(capacity)];
      begin, end := Centered(capacity, |s|), Centered(capacity, |s|);
      new;
      AppendInPlace(s);
    }

    /** The range constructor for input iterators: start at Centered(0) and
        push_back each element, which re-centres when the back is full. */
    constructor FromInput(capacity: nat, s: seq<T>)
      requires capacity >= 1 && |s| <= TrueCap(capacity)
      ensures Valid() && Capacity == capacity && fresh(elem)
      ensures Contents() == s
    {
      Capacity := capacity;
      elem := new T[TrueCap(capacity)];
      begin, end := Centered(capacity, 0), Centered(capacity, 0);
      new;
      AppendAll(s);
    }

    /** operator[]: the element at index, which must exist. */
    function Get(i: nat): (x: T)
      reads this, elem
      requires Valid() && begin + i < end
      ensures x == Contents()[i]
    {
      elem[begin + i]
    }

    /** at(): the element at index, or std::out_of_range when
        _begin + index >= _end. */
    function At(i: nat): (r: Checked<T>)
      reads this, elem
      requires Valid()
      ensures i < |Contents()| <==> r.Ok?
      ensures r.Ok? ==> r.value == Contents()[i]
    {
      if begin + i < end then Ok(elem[begin + i]) else OutOfRange
    }

    /** front(): the first element of a non-empty deque. */
    function Front(): (x: T)
      reads this, elem
      requires Valid() && begin < end
      ensures x == Contents()[0]
    {
      elem[begin]
    }

    /** back(): the last element of a non-empty deque. */
    function Back(): (x: T)
      reads this, elem
      requires Valid() && begin < end
      ensures x == Contents()[|Contents()| - 1]
    {
      elem[end - 1]
    }

    /** clear(): no elements, both pointers at Centered(0). */
    method Clear()
      requires Valid()
      modifies this
      ensures Valid() && Contents() == [] && begin == end == Centered(Capacity, 0)
    {
      begin, end := Centered(Capacity, 0), Centered(Capacity, 0);
    }

    /** Recenter(): slide the elements to start at Centered(size()). */
    method Recenter()
      requires Valid()
      modifies this, elem
      ensures Valid() && Contents() == old(Contents())
      ensures begin == Centered(Capacity, old(end - begin))
    {
      SlideTo(Centered(Capacity, end - begin));
    }

    /** push_back and emplace_back: re-centre when _end is at the last
        cell, then construct at _end and advance it. */
    method PushBack(x: T)
      requires Valid() && end - begin < TrueCap(Capacity)
      modifies this, elem
      ensures Valid() && Contents() == old(Contents()) + [x]
      ensures old(end) < TrueCap(Capacity) ==> begin == old(begin)
      ensures old(end) == TrueCap(Capacity) ==> begin == Centered(Capacity, old(end - begin))
    {
      if end == TrueCap(Capacity) {
        CenteredBalanced(Capacity, end - begin);
        Recenter();
      }
      elem[end] := x;
      end := end + 1;
    }

    /** push_front and emplace_front as written: re-centre when _begin is at
        FirstSpace(), then construct at _begin - 1, a cell that exists only
        under PushFrontGuardAsWritten. */
    method PushFrontAsWritten(x: T)
      requires Valid() && PushFrontGuardAsWritten(Capacity, begin, end - begin)
      modifies this, elem
      ensures Valid() && Contents() == [x] + old(Contents())
      ensures old(begin) > 0 ==> begin == old(begin) - 1
      ensures old(begin) == 0 ==> begin == Centered(Capacity, old(end - begin)) - 1
    {
      if begin == 0 {
        Recenter();
      }
      elem[begin - 1] := x;
      begin := begin - 1;
      assert Contents() == [x] + elem[begin + 1..end];
    }

    /** push_front and emplace_front, corrected: when _begin is at
        FirstSpace() re-centre as the source does, unless Centered(size())
        is FirstSpace() itself; then, the one free cell being the last,
        slide the elements one cell on. Then construct at _begin - 1. Any
        deque with a free cell takes the element, and wherever the source's
        push_front works this one puts the elements where it does. */
    method PushFront(x: T)
      requires Valid() && end - begin < TrueCap(Capacity)
      modifies this, elem
      ensures Valid() && Contents() == [x] + old(Contents())
      ensures old(begin) > 0 ==> begin == old(begin) - 1
      ensures old(begin) == 0 && Centered(Capacity, old(end - begin)) > 0 ==>
                begin == Centered(Capacity, old(end - begin)) - 1
      ensures old(begin) == 0 && Centered(Capacity, old(end - begin)) == 0 ==> begin == 0
    {
      if begin == 0 {
        if Centered(Capacity, end - begin) > 0 {
          Recenter();
        } else {
          CenteredBalanced(Capacity, end - begin);
          SlideTo(1);
        }
      }
      elem[begin - 1] := x;
      begin := begin - 1;
      assert Contents() == [x] + elem[begin + 1..end];
    }

    /** The slide of Recenter and of the corrected push_front: the
        elements moved to start at the cell nb, with std::move when that is
        to the left and std::move_backward when it is to the right. */
    method SlideTo(nb: nat)
      requires Valid() && nb + (end - begin) <= TrueCap(Capacity)
      modifies this, elem
      ensures Valid() && Contents() == old(Contents()) && begin == nb
    {
      var sz := end - begin;
      ghost var c0 := elem[begin..end];
      if nb < begin {
        var _ := MoveConstruct(elem, begin, end, elem, nb);
      } else if begin < nb {
        var _ := MoveConstructBackward(elem, begin, end, elem, nb + sz);
      }
      assert elem[nb..nb + sz] == c0;
      begin, end := nb, nb + sz;
    }

    /** pop_front(): drop the first element. */
    method PopFront()
      requires Valid() && begin < end
      modifies this
      ensures Valid() && Contents() == old(Contents())[1..] && end == old(end)
    {
      begin := begin + 1;
    }

    /** pop_back(): drop the last element. */
    method PopBack()
      requires Valid() && begin < end
      modifies this
      ensures Valid() && Contents() == old(Contents())[..old(end - begin) - 1] && begin == old(begin)
    {
      end := end - 1;
    }

    /** The loop `while (size() < n) push_back(val)` of assign and resize. */
    method PadTo(n: nat, v: T)
      requires Valid() && n <= TrueCap(Capacity)
      modifies this, elem
      ensures Valid()
      ensures n <= old(end - begin) ==> Contents() == old(Contents())
      ensures old(end - begin) <= n ==> Contents() == old(Contents()) + Repeat(v, n - old(end - begin))
      ensures old(begin) + n <= TrueCap(Capacity) ==> begin == old(begin)
    {
      ghost var s0 := end - begin;
      while end - begin < n
        invariant Valid() && s0 <= end - begin && (end - begin == s0 || end - begin <= n)
        invariant Contents() == old(Contents()) + Repeat(v, end - begin - s0)
        invariant old(begin) + n <= TrueCap(Capacity) ==> begin == old(begin)
        decreases n - (end - begin)
      {
        PushBack(v);
        assert Repeat(v, end - begin - 1 - s0) + [v] == Repeat(v, end - begin - s0);
      }
      assert old(Contents()) + Repeat(v, 0) == old(Contents());
    }

    /** emplace_back of each element of s, where the back has room for
        all of them: no re-centring. */
    method AppendInPlace(s: seq<T>)
      requires Valid() && end + |s| <= TrueCap(Capacity)
      modifies this, elem
      ensures Valid() && Contents() == old(Contents()) + s && begin == old(begin)
    {
      var i := 0;
      while i < |s|
        invariant i <= |s| && Valid() && begin == old(begin) && end == old(end) + i
        invariant Contents() == old(Contents()) + s[..i]
      {
        PushBack(s[i]);
        assert s[..i + 1] == s[..i] + [s[i]];
        i := i + 1;
      }
      assert s[..|s|] == s;
    }

    /** push_back of each element of s, re-centring whenever the back fills. */
    method AppendAll(s: seq<T>)
      requires Valid() && end - begin + |s| <= TrueCap(Capacity)
      modifies this, elem
      ensures Valid() && Contents() == old(Contents()) + s
    {
      var i := 0;
      while i < |s|
        invariant i <= |s| && Valid() && end - begin == old(end - begin) + i
        invariant Contents() == old(Contents()) + s[..i]
      {
        PushBack(s[i]);
        assert s[..i + 1] == s[..i] + [s[i]];
        i := i + 1;
      }
      assert s[..|s|] == s;
    }

    /** The elements, as the range-for loops over a donor read them. */
    method Elements() returns (s: seq<T>)
      requires Valid()
      ensures s == Contents()
    {
      s := elem[begin..end];
    }

    /** assign(n, val): both pointers at Centered(n), then push_back(val)
        while size() < n. */
    method Assign(n: nat, v: T)
      requires Valid() && n <= TrueCap(Capacity)
      modifies this, elem
      ensures Valid() && Contents() == Repeat(v, n) && begin == Centered(Capacity, n)
    {
      begin, end := Centered(Capacity, n), Centered(Capacity, n);
      PadTo(n, v);
    }

    /** assign(initializer_list) and assign(first, last) for random-access
        iterators: both pointers at Centered(n), then emplace_back each. */
    method AssignSeq(s: seq<T>)
      requires Valid() && |s| <= TrueCap(Capacity)
      modifies this, elem
      ensures Valid() && Contents() == s && begin == Centered(Capacity, |s|)
    {
      begin, end := Centered(Capacity, |s|), Centered(Capacity, |s|);
      AppendInPlace(s);
    }

    /** assign(first, last) for input iterators: both pointers at
        Centered(0), then push_back each. */
    method AssignInput(s: seq<T>)
      requires Valid() && |s| <= TrueCap(Capacity)
      modifies this, elem
      ensures Valid() && Contents() == s
    {
      begin, end := Centered(Capacity, 0), Centered(Capacity, 0);
      AppendAll(s);
    }

    /** operator=(const static_deque&): unless other is this deque,
        assign(other.begin(), other.end()) with its pointers, which are
        random-access iterators. */
    method CopyAssign(other: StaticDeque<T>)
      requires Valid() && other.Valid() && other.Capacity == Capacity
      requires other != this ==> other.elem != elem
      modifies this, elem
      ensures Valid() && Contents() == old(other.Contents())
      ensures other != this ==> begin == Centered(Capacity, |Contents()|)
    {
      if other != this {
        var s := other.Elements();
        AssignSeq(s);
      }
    }

    /** operator=(static_deque&&): unless other is this deque, both
        pointers at Centered(other.size()) and each element of other moved
        into the cell at _end. The moved-from deque keeps its size. */
    method MoveAssign(other: StaticDeque<T>)
      requires Valid() && other.Valid() && other.Capacity == Capacity
      requires other != this ==> other.elem != elem
      modifies this, elem
      ensures Valid() && Contents() == old(other.Contents())
      ensures other != this ==> begin == Centered(Capacity, |Contents()|)
    {
      if other != this {
        var s := other.Elements();
        AssignSeq(s);
      }
    }

    /** swap(x): std::swap(*this, x), a move construction and two move
        assignments, so both deques end up centred. */
    method Swap(other: StaticDeque<T>)
      requires Valid() && other.Valid() && other.Capacity == Capacity
      requires other != this ==> other.elem != elem
      modifies this, elem, other, other.elem
      ensures Valid() && other.Valid()
      ensures Contents() == old(other.Contents()) && other.Contents() == old(Contents())
      ensures other != this ==> begin == Centered(Capacity, |Contents()|)
      ensures other != this ==> other.begin == Centered(Capacity, |other.Contents()|)
    {
      var mine := Elements();
      var tmp := new StaticDeque.FromSeq(Capacity, mine);
      MoveAssign(other);
      other.MoveAssign(tmp);
    }

    /** resize(n, val): pop_back while n < size(), then push_back(val)
        while size() < n; resize(n) is the same with T(). */
    method Resize(n: nat, v: T)
      requires Valid() && n <= TrueCap(Capacity)
      modifies this, elem
      ensures Valid()
      ensures n <= old(end - begin) ==> Contents() == old(Contents())[..n]
      ensures old(end - begin) <= n ==> Contents() == old(Contents()) + Repeat(v, n - old(end - begin))
    {
      while n < end - begin
        invariant Valid() && begin == old(begin) && end <= old(end)
        invariant end == old(end) || n <= end - begin
        invariant elem[..] == old(elem[..])
        decreases end
      {
        PopBack();
      }
      assert Contents() == old(Contents())[..end - begin];
      PadTo(n, v);
    }

    /** MakeRoomAfter(p, n): move-construct the last min(end() - p, n)
        elements n cells on, walking from the back, then std::move_backward
        the rest of [p, end()) to end where those started; _end grows by
        n and the first cleared cell is p. */
    method MakeRoomAfter(p: nat, n: nat) returns (r: nat)
      requires Valid() && begin <= p <= end && end + n <= TrueCap(Capacity)
      modifies this, elem
      ensures Valid() && begin == old(begin) && end == old(end) + n && r == p
      ensures elem[..] == Shifted(old(elem[..]), p + n, old(end) + n, n)
    {
      var nu: nat := if end - p < n then end - p else n;
      var lo, hi := p + n, end + n;
      var mid := hi - nu;
      ghost var before := elem[..];
      MoveRun(elem, mid, hi, n, true);
      ghost var moved := elem[..];
      assert moved == Shifted(before, mid, hi, n);
      MoveRun(elem, lo, mid, n, true);
      ghost var after := elem[..];
      assert after == Shifted(moved, lo, mid, n);
      ShiftedHighFirst(before, lo, mid, hi, n);
      end := end + n;
      r := p;
    }

    /** MakeRoomBefore(p, n): after checking FirstSpace() <= begin() - n,
        move-construct the first min(p - begin(), n) elements n cells back,
        then std::move the rest of [begin(), p) after them; _begin drops by
        n and the first cleared cell is p - n. */
    method MakeRoomBefore(p: nat, n: nat) returns (r: nat)
      requires Valid() && begin <= p <= end && n <= begin
      modifies this, elem
      ensures Valid() && begin == old(begin) - n && end == old(end) && r == p - n
      ensures elem[..] == Shifted(old(elem[..]), old(begin) - n, p - n, -(n as int))
    {
      var nu: nat := if p - begin < n then p - begin else n;
      var lo, hi, d := begin - n, p - n, -(n as int);
      var mid := lo + nu;
      ghost var before := elem[..];
      MoveRun(elem, lo, mid, d, false);
      ghost var moved := elem[..];
      assert moved == Shifted(before, lo, mid, d);
      MoveRun(elem, mid, hi, d, false);
      ghost var after := elem[..];
      assert after == Shifted(moved, mid, hi, d);
      ShiftedLowFirst(before, lo, mid, hi, d);
      begin := lo;
      r := p - n;
    }

    /** The back branch of MakeRoom, stated on the live elements. */
    method OpenBack(p: nat, n: nat) returns (t: nat)
      requires Valid() && begin <= p <= end && end + n <= TrueCap(Capacity)
      modifies this, elem
      ensures Valid() && begin == old(begin) && end == old(end) + n && t == p
      ensures elem[begin..t] == old(elem[begin..p]) && elem[t + n..end] == old(elem[p..end])
    {
      ghost var before := elem[..];
      ghost var b, e := begin, end;
      ghost var front, back := elem[begin..p], elem[p..end];
      assert front == before[b..p] && back == before[p..e];
      t := MakeRoomAfter(p, n);
      ghost var after := elem[..];
      OpenedBack(before, after, b, e, p, n);
      assert elem[begin..t] == front && elem[t + n..end] == back;
    }

    /** The front branch of MakeRoom, stated on the live elements. */
    method OpenFront(p: nat, n: nat) returns (t: nat)
      requires Valid() && begin <= p <= end && n <= begin
      modifies this, elem
      ensures Valid() && begin == old(begin) - n && end == old(end) && t == p - n
      ensures elem[begin..t] == old(elem[begin..p]) && elem[t + n..end] == old(elem[p..end])
    {
      ghost var before := elem[..];
      ghost var b, e := begin, end;
      ghost var front, back := elem[begin..p], elem[p..end];
      assert front == before[b..p] && back == before[p..e];
      t := MakeRoomBefore(p, n);
      ghost var after := elem[..];
      OpenedFront(before, after, b, e, p, n);
      assert elem[begin..t] == front && elem[t + n..end] == back;
    }

    /** MakeRoom(p, n), corrected: slide the back when it is the shorter
        side and has room, or when the front has none; otherwise slide the
        front. The result is the first of the n cleared cells, at the same
        distance from begin() as p was. */
    method MakeRoom(p: nat, n: nat) returns (t: nat)
      requires Valid() && begin <= p <= end && MakeRoomGuard(begin, end, n, TrueCap(Capacity))
      modifies this, elem
      ensures Valid() && end - begin == old(end - begin) + n
      ensures t - begin == p - old(begin) && begin <= t && t + n <= end
      ensures elem[begin..t] == old(elem[begin..p]) && elem[t + n..end] == old(elem[p..end])
      ensures t == if SlidesBack(old(begin), old(end), p, n, TrueCap(Capacity)) then p else p - n
    {
      if SlidesBack(begin, end, p, n, TrueCap(Capacity)) {
        t := OpenBack(p, n);
      } else {
        t := OpenFront(p, n);
      }
    }

    /** FillCell(b, e, pos, val): assign over an element that was live
        before the insert (b <= pos < e), construct otherwise; the value
        stored is the same. */
    method FillCell(b: nat, e: nat, pos: nat, v: T) returns (w: CellWrite)
      requires Valid() && pos < TrueCap(Capacity)
      modifies elem
      ensures elem[..] == old(elem[..])[pos := v]
      ensures w == (if b <= pos < e then Assigned else Constructed)
    {
      elem[pos] := v;
      w := if b <= pos < e then Assigned else Constructed;
    }

    /** The FillCell loop of the fill, initializer-list and random-access
        range inserts: cells t .. t + |s| get s in order. */
    method FillRun(b: nat, e: nat, t: nat, s: seq<T>)
      requires Valid() && t + |s| <= TrueCap(Capacity)
      modifies elem
      ensures elem[..] == old(elem[..t]) + s + old(elem[t + |s|..])
    {
      var i := 0;
      while i < |s|
        invariant i <= |s|
        invariant elem[..] == old(elem[..t]) + s[..i] + old(elem[t + i..])
      {
        var _ := FillCell(b, e, t + i, s[i]);
        assert s[..i + 1] == s[..i] + [s[i]];
        i := i + 1;
      }
    }

    /** The initializer-list insert and the random-access range insert:
        MakeRoom(position, n), then FillCell each new value into the cleared
        cells; the result is the first of them. */
    method InsertSeq(pos: nat, s: seq<T>) returns (t: nat)
      requires Valid() && begin <= pos <= end && MakeRoomGuard(begin, end, |s|, TrueCap(Capacity))
      modifies this, elem
      ensures Valid() && t - begin == pos - old(begin) && t + |s| <= end
      ensures Contents() == old(Contents())[..pos - old(begin)] + s + old(Contents())[pos - old(begin)..]
      ensures SlidesBack(old(begin), old(end), pos, |s|, TrueCap(Capacity)) ==> begin == old(begin)
      ensures !SlidesBack(old(begin), old(end), pos, |s|, TrueCap(Capacity)) ==> begin == old(begin) - |s|
    {
      ghost var front, back := elem[begin..pos], elem[pos..end];
      assert front == Contents()[..pos - begin] && back == Contents()[pos - begin..];
      var b, e := begin, end;
      t := MakeRoom(pos, |s|);
      ghost var m := elem[..];
      assert m[begin..t] == front && m[t + |s|..end] == back;
      FillRun(b, e, t, s);
      ghost var a := elem[..];
      assert a == m[..t] + s + m[t + |s|..];
      Spliced(m, a, begin, t, end, s, front, back);
    }

    /** The fill insert, which the single-element copy insert calls with
        n == 1: n copies of val at position. */
    method InsertFill(pos: nat, n: nat, v: T) returns (t: nat)
      requires Valid() && begin <= pos <= end && MakeRoomGuard(begin, end, n, TrueCap(Capacity))
      modifies this, elem
      ensures Valid() && t - begin == pos - old(begin) && t + n <= end
      ensures Contents() == old(Contents())[..pos - old(begin)] + Repeat(v, n) + old(Contents())[pos - old(begin)..]
      ensures SlidesBack(old(begin), old(end), pos, n, TrueCap(Capacity)) ==> begin == old(begin)
      ensures !SlidesBack(old(begin), old(end), pos, n, TrueCap(Capacity)) ==> begin == old(begin) - n
    {
      t := InsertSeq(pos, Repeat(v, n));
    }

    /** The single-element copy insert: insert(position, 1, val). */
    method Insert(pos: nat, x: T) returns (t: nat)
      requires Valid() && begin <= pos <= end && end - begin < TrueCap(Capacity)
      modifies this, elem
      ensures Valid() && t - begin == pos - old(begin) && t < end
      ensures Contents() == old(Contents())[..pos - old(begin)] + [x] + old(Contents())[pos - old(begin)..]
      ensures SlidesBack(old(begin), old(end), pos, 1, TrueCap(Capacity)) ==> begin == old(begin)
      ensures !SlidesBack(old(begin), old(end), pos, 1, TrueCap(Capacity)) ==> begin == old(begin) - 1
    {
      RoomForOne(begin, end, TrueCap(Capacity));
      t := InsertSeq(pos, [x]);
    }

    /** The move insert: MakeRoom(position, 1), then assign if the cleared
        cell held an element before the insert and construct otherwise. */
    method InsertMove(pos: nat, x: T) returns (t: nat, w: CellWrite)
      requires Valid() && begin <= pos <= end && end - begin < TrueCap(Capacity)
      modifies this, elem
      ensures Valid() && t - begin == pos - old(begin) && t < end
      ensures Contents() == old(Contents())[..pos - old(begin)] + [x] + old(Contents())[pos - old(begin)..]
      ensures w == (if old(begin) <= t < old(end) then Assigned else Constructed)
    {
      RoomForOne(begin, end, TrueCap(Capacity));
      var b, e := begin, end;
      t := InsertSeq(pos, [x]);
      w := if b <= t < e then Assigned else Constructed;
    }

    /** emplace(pos, args): MakeRoom(pos, 1), then construct when pos was
        begin() or end() and assign otherwise. */
    method Emplace(pos: nat, x: T) returns (t: nat, w: CellWrite)
      requires Valid() && begin <= pos <= end && end - begin < TrueCap(Capacity)
      modifies this, elem
      ensures Valid() && t - begin == pos - old(begin) && t < end
      ensures Contents() == old(Contents())[..pos - old(begin)] + [x] + old(Contents())[pos - old(begin)..]
      ensures w == (if pos == old(begin) || pos == old(end) then Constructed else Assigned)
    {
      var atEdge := pos == begin || pos == end;
      var moved;
      t, moved := InsertMove(pos, x);
      w := if atEdge then Constructed else Assigned;
    }

    /** The range insert for input iterators, corrected: each element is
        inserted just after the one before it (at the cell the previous
        insert returned, plus one), and the result is the first inserted. */
    method InsertInputRange(pos: nat, s: seq<T>) returns (r: nat)
      requires Valid() && begin <= pos <= end && end - begin + |s| <= TrueCap(Capacity)
      modifies this, elem
      ensures Valid() && r - begin == pos - old(begin) && r + |s| <= end
      ensures Contents() == old(Contents())[..pos - old(begin)] + s + old(Contents())[pos - old(begin)..]
    {
      ghost var c0 := Contents();
      var k := pos - begin;
      var p, i := pos, 0;
      while i < |s|
        invariant i <= |s| && Valid() && end - begin == |c0| + i
        invariant begin <= p <= end && p - begin == k + i
        invariant Contents() == c0[..k] + s[..i] + c0[k..]
      {
        ghost var c := Contents();
        var t := Insert(p, s[i]);
        assert c[..k + i] == c0[..k] + s[..i] && c[k + i..] == c0[k..];
        assert s[..i + 1] == s[..i] + [s[i]];
        p, i := t + 1, i + 1;
      }
      assert s[..|s|] == s;
      r := begin + k;
    }

    /** The range insert for input iterators as written: insert(position++,
        *first++) for each element and the advanced position as the result.
        ok is false where the position check of an insert would fail. */
    method InsertInputRangeAsWritten(pos: nat, s: seq<T>) returns (r: nat, ok: bool)
      requires Valid() && begin <= pos <= end && end - begin + |s| <= TrueCap(Capacity)
      modifies this, elem
      ensures Valid()
      ensures ok ==> r == pos + |s|
      ensures ok <==> InputInsertAsWritten(TrueCap(Capacity), old(begin), old(end), old(Contents()), pos, s).Done?
      ensures ok ==> Contents() == InputInsertAsWritten(TrueCap(Capacity), old(begin), old(end), old(Contents()), pos, s).contents
    {
      ghost var tc := TrueCap(Capacity);
      ghost var whole := InputInsertAsWritten(tc, begin, end, Contents(), pos, s);
      var p, i := pos, 0;
      while i < |s| && begin <= p <= end
        invariant i <= |s| && Valid() && end - begin + (|s| - i) <= tc && p == pos + i
        invariant whole == InputInsertAsWritten(tc, begin, end, Contents(), p, s[i..])
      {
        InsertNext(p, s[i..]);
        assert s[i..][1..] == s[i + 1..];
        p, i := p + 1, i + 1;
      }
      ok := i == |s|;
      if ok {
        assert s[|s|..] == [] && whole == Done(Contents());
      } else {
        assert |s[i..]| > 0 && whole == Aborted;
      }
      r := p;
    }

    /** One insert(position++, *first++) of InsertInputRangeAsWritten: rest
        holds the elements still to insert, and what the inserts of rest
        from p give is what the inserts of its tail from p + 1 give after
        this one. */
    method InsertNext(p: nat, rest: seq<T>)
      requires Valid() && begin <= p <= end && |rest| > 0 && end - begin + |rest| <= TrueCap(Capacity)
      modifies this, elem
      ensures Valid() && end - begin == old(end - begin) + 1
      ensures InputInsertAsWritten(TrueCap(Capacity), old(begin), old(end), old(Contents()), p, rest)
           == InputInsertAsWritten(TrueCap(Capacity), begin, end, Contents(), p + 1, rest[1..])
    {
      ghost var b0, e0, c := begin, end, Contents();
      RoomForOne(begin, end, TrueCap(Capacity));
      var _ := Insert(p, rest[0]);
      InputInsertStep(TrueCap(Capacity), b0, e0, c, p, rest, begin, end, Contents());
    }

    /** erase(first, last): a non-empty range must lie in [begin(), end());
        when fewer elements precede it than follow it std::move_backward
        slides them up to last and _begin advances, otherwise std::move
        slides the elements from last down to first and _end drops. The
        result is the cell of the element that followed the range (last for
        an empty range). */
    method EraseRange(first: nat, last: nat) returns (r: nat)
      requires Valid() && (first != last ==> begin <= first < last <= end)
      modifies this, elem
      ensures Valid()
      ensures first == last ==> r == last && Contents() == old(Contents()) && begin == old(begin)
      ensures first != last ==> r - begin == first - old(begin)
      ensures first != last ==> Contents() == old(Contents())[..first - old(begin)] + old(Contents())[last - old(begin)..]
      ensures first != last && first - old(begin) < old(end) - last ==> end == old(end)
      ensures first != last && first - old(begin) >= old(end) - last ==> begin == old(begin)
    {
      r := last;
      if first != last {
        if first - begin < end - last {
          r := CloseFront(first, last);
        } else {
          r := CloseBack(first, last);
        }
      }
    }

    /** The front branch of erase: std::move_backward(_begin, first, last),
        then _begin advances by last - first; the result is last. */
    method CloseFront(first: nat, last: nat) returns (r: nat)
      requires Valid() && begin <= first < last <= end
      modifies this, elem
      ensures Valid() && end == old(end) && r == last && r - begin == first - old(begin)
      ensures Contents() == old(Contents())[..first - old(begin)] + old(Contents())[last - old(begin)..]
    {
      ghost var before := elem[..];
      var _ := MoveConstructBackward(elem, begin, first, elem, last);
      ghost var after := elem[..];
      assert after[last - (first - begin)..last] == before[begin..first];
      assert after[last..end] == before[last..end];
      ClosedFront(before, after, begin, first, last, end);
      begin := begin + (last - first);
      r := last;
    }

    /** The back branch of erase: std::move(last, end(), first), then _end
        drops by last - first; the result is first. */
    method CloseBack(first: nat, last: nat) returns (r: nat)
      requires Valid() && begin <= first < last <= end
      modifies this, elem
      ensures Valid() && begin == old(begin) && r == first
      ensures Contents() == old(Contents())[..first - old(begin)] + old(Contents())[last - old(begin)..]
    {
      ghost var before := elem[..];
      ghost var b, e := begin, end;
      var _ := MoveConstruct(elem, last, end, elem, first);
      ghost var after := elem[..];
      assert after[b..first] == before[b..first];
      assert after[first..first + (e - last)] == before[last..e];
      ClosedBack(before, after, b, first, last, e);
      end := end - (last - first);
      assert Contents() == after[b..first + (e - last)];
      r := first;
    }

    /** erase(position): erase(position, position + 1). */
    method EraseAt(pos: nat) returns (r: nat)
      requires Valid() && begin <= pos < end
      modifies this, elem
      ensures Valid() && r - begin == pos - old(begin)
      ensures Contents() == old(Contents())[..pos - old(begin)] + old(Contents())[pos - old(begin) + 1..]
    {
      r := EraseRange(pos, pos + 1);
    }
  }
}
