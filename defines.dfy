/** Helpers shared by the three containers (frystl-defines.hpp), plus the small
    value types the containers use for checked access and for a filled cell. */
module Defines {

  /** Outcome of a range-checked access: `at()` either yields the element or
      throws std::out_of_range and leaves the container unchanged. */
  datatype Checked<T> = Ok(value: T) | OutOfRange

  /** How a cell received its value: by assignment over a live element or by
      construction into raw storage. */
  datatype CellWrite = Assigned | Constructed

  /** `n` copies of `v`: what a fill constructor, fill insert or fill assign adds. */
  function Repeat<T>(v: T, n: nat): (r: seq<T>)
    ensures |r| == n && forall i :: 0 <= i < n ==> r[i] == v
  {
    seq(n, _ => v)
  }

  function Max(a: int, b: int): int
  {
    if a < b then b else a
  }

  /** Ceiling(num, denom): the quotient num/denom rounded up, computed as
      (num + denom - 1) / denom. */
  function Ceiling(num: nat, denom: nat): nat
    requires denom > 0
  {
    (num + denom - 1) / denom
  }

  /** Euclidean division facts for a positive divisor, spelled out once. */
  lemma DivMod(k: int, d: int)
    requires d > 0
    ensures k == (k / d) * d + k % d && 0 <= k % d < d
  {
  }

  /** A product with a non-negative factor keeps the order of the other one. */
  lemma MulMonotone(a: int, b: int, d: int)
    requires d >= 0 && a <= b
    ensures a * d <= b * d
  {
    assert b * d - a * d == (b - a) * d;
  }

  /** Block coordinates are unique: an index written as q*d + r with 0 <= r < d
      has block q and offset r. */
  lemma {:induction false} DivModUnique(k: int, d: int, q: int, r: int)
    requires d > 0 && 0 <= r < d && k == q * d + r
    ensures k / d == q && k % d == r
  {
    DivMod(k, d);
    var q', r' := k / d, k % d;
    if q' < q {
      MulMonotone(q' + 1, q, d);
    } else if q < q' {
      MulMonotone(q + 1, q', d);
    }
  }

  /** An index in [0, n*d) lies in one of the blocks 0 .. n-1. */
  lemma {:induction false} DivBounds(k: int, n: int, d: int)
    requires d > 0 && 0 <= k < n * d
    ensures 0 <= k / d < n
  {
    DivMod(k, d);
    if k / d < 0 {
      MulMonotone(k / d, -1, d);
    } else if n <= k / d {
      MulMonotone(n, k / d, d);
    }
  }

  /** Ceiling(num, denom) is the least q with q * denom >= num. */
  lemma {:induction false} CeilingIsLeast(num: nat, denom: nat)
    requires denom > 0
    ensures Ceiling(num, denom) * denom >= num
    ensures Ceiling(num, denom) == 0 || (Ceiling(num, denom) - 1) * denom < num
  {
    var c := Ceiling(num, denom);
    DivMod(num + denom - 1, denom);
    assert (c - 1) * denom == c * denom - denom;
  }

  /** Any q with q * denom >= num is at least Ceiling(num, denom). */
  lemma {:induction false} CeilingBelow(num: nat, denom: nat, q: int)
    requires denom > 0 && q * denom >= num
    ensures Ceiling(num, denom) <= q
  {
    CeilingIsLeast(num, denom);
    var c := Ceiling(num, denom);
    if q < c {
      MulMonotone(q, c - 1, denom);
    }
  }

  /** Ceiling(num, denom) is characterised by the two inequalities. */
  lemma {:induction false} CeilingUnique(num: nat, denom: nat, q: nat)
    requires denom > 0 && q * denom >= num && (q == 0 || (q - 1) * denom < num)
    ensures Ceiling(num, denom) == q
  {
    CeilingBelow(num, denom, q);
    CeilingIsLeast(num, denom);
    var c := Ceiling(num, denom);
    if q > 0 && c < q {
      MulMonotone(c, q - 1, denom);
    }
  }

  /** Removing the last element changes the rounded-up block count only when
      that element was the first of its block. */
  lemma {:induction false} CeilingOfPredecessor(n: nat, d: nat)
    requires d > 0 && n > 0
    ensures (n - 1) % d != 0 ==> Ceiling(n - 1, d) == Ceiling(n, d)
    ensures (n - 1) % d == 0 ==> Ceiling(n - 1, d) + 1 == Ceiling(n, d)
  {
    var q, r := (n - 1) / d, (n - 1) % d;
    DivMod(n - 1, d);
    if r == 0 {
      CeilingUnique(n - 1, d, q);
      assert (q + 1) * d == q * d + d;
      CeilingUnique(n, d, q + 1);
    } else {
      assert (q + 1) * d == q * d + d;
      CeilingUnique(n - 1, d, q + 1);
      CeilingUnique(n, d, q + 1);
    }
  }

  /** Ceiling(0, d) == 0, and the block holding index i (i / d) is below
      Ceiling(n, d) whenever i < n. */
  lemma {:induction false} BlockBelowCeiling(i: nat, n: nat, d: nat)
    requires d > 0 && i < n
    ensures Ceiling(0, d) == 0
    ensures i / d < Ceiling(n, d)
  {
    CeilingUnique(0, d, 0);
    CeilingIsLeast(n, d);
    DivMod(i, d);
    var c := Ceiling(n, d);
    if c <= i / d {
      MulMonotone(c, i / d, d);
    }
  }

  /** q blocks of d cells hold n cells once q is at least Ceiling(n, d). */
  lemma CeilingCovers(n: nat, d: nat, q: nat)
    requires d > 0 && Ceiling(n, d) <= q
    ensures q * d >= n && d * q >= n
  {
    CeilingIsLeast(n, d);
    MulMonotone(Ceiling(n, d), q, d);
  }

  /** q blocks of d cells are exactly the blocks n cells need when they hold
      the n cells with less than a block to spare. */
  lemma CeilingOfFullBlocks(n: nat, d: nat, q: nat)
    requires d > 0 && n <= d * q < n + d
    ensures Ceiling(n, d) == q
  {
    assert (q - 1) * d == q * d - d;
    CeilingUnique(n, d, q);
  }

  /** Ceiling does not decrease as its numerator grows. */
  lemma CeilingMonotone(a: nat, b: nat, d: nat)
    requires d > 0 && a <= b
    ensures Ceiling(a, d) <= Ceiling(b, d)
  {
    CeilingIsLeast(b, d);
    CeilingBelow(a, d, Ceiling(b, d));
  }

  /** The block of index n (n / d) is at most the rounded-up quotient, and
      equal to it exactly when n is a multiple of d. */
  lemma {:induction false} FloorAndCeiling(n: nat, d: nat)
    requires d > 0
    ensures n / d <= Ceiling(n, d)
    ensures n % d == 0 <==> n / d == Ceiling(n, d)
  {
    DivMod(n, d);
    var q := n / d;
    assert (q + 1) * d == q * d + d;
    if n % d == 0 {
      assert (q - 1) * d == q * d - d;
      CeilingUnique(n, d, q);
    } else {
      CeilingUnique(n, d, q + 1);
    }
  }

  /** c with the cells in [lo, hi) replaced by the cells d places before
      them: the effect of moving a run of elements d cells on. */
  ghost function Shifted<T>(c: seq<T>, lo: int, hi: int, d: int): (r: seq<T>)
    requires 0 <= lo <= hi <= |c| && 0 <= lo - d && hi - d <= |c|
    ensures |r| == |c|
  {
    seq(|c|, k requires 0 <= k < |c| => c[if lo <= k < hi then k - d else k])
  }

  /** Moving nothing changes nothing. */
  lemma ShiftedNone<T>(c: seq<T>, lo: int, d: int)
    requires 0 <= lo <= |c| && 0 <= lo - d <= |c|
    ensures Shifted(c, lo, lo, d) == c
  {
  }

  /** A forward walk: writing the cell hi - d into cell hi extends the moved
      run by one, as long as the cell read has not been overwritten. */
  lemma ShiftedStepUp<T>(c: seq<T>, lo: int, hi: int, d: int)
    requires 0 <= lo <= hi < |c| && 0 <= lo - d && hi + 1 - d <= |c|
    requires !(lo <= hi - d < hi)
    ensures Shifted(c, lo, hi, d)[hi := Shifted(c, lo, hi, d)[hi - d]] == Shifted(c, lo, hi + 1, d)
  {
  }

  /** A backward walk: writing the cell lo - 1 - d into cell lo - 1 extends
      the moved run by one at its low end, for a shift to the right. */
  lemma ShiftedStepDown<T>(c: seq<T>, lo: int, hi: int, d: int)
    requires 0 < lo <= hi <= |c| && d >= 0 && 0 <= lo - 1 - d && hi - d <= |c|
    ensures Shifted(c, lo, hi, d)[lo - 1 := Shifted(c, lo, hi, d)[lo - 1 - d]] == Shifted(c, lo - 1, hi, d)
  {
  }

  /** The cell arithmetic of erase: after the tail from l is moved down to
      f, the first size - (l - f) cells are the elements before f followed by
      those from l on. */
  lemma CloseGap<T>(before: seq<T>, after: seq<T>, f: nat, l: nat, size: nat)
    requires f <= l <= size <= |before|
    requires after == Shifted(before, f, f + (size - l), f - l)
    ensures after[..size - (l - f)] == before[..size][..f] + before[..size][l..]
  {
  }

  /** The cell arithmetic of MakeRoom: after the last nu elements are moved
      n cells on and the rest of the tail nu cells on, the cells before p are
      untouched and the old elements from p on start at p + n. */
  lemma OpenGap<T>(grown: seq<T>, moved: seq<T>, after: seq<T>,
                   p: nat, n: nat, size: nat, nu: nat, f: int, t: int)
    requires p <= size && size + n <= |grown| && nu == (if size - p < n then size - p else n)
    requires f == size - nu && t == f + n
    requires moved == Shifted(grown, t, t + nu, t - f)
    requires after == Shifted(moved, p + nu, f + nu, nu)
    ensures |after| == |grown|
    ensures after[..p] == grown[..p]
    ensures after[p + n..size + n] == grown[p..size]
  {
    forall k | 0 <= k < p
      ensures after[..p][k] == grown[..p][k]
    {
      OpenGapAt(grown, moved, after, p, n, size, nu, k);
    }
    forall k | 0 <= k < size - p
      ensures after[p + n..size + n][k] == grown[p..size][k]
    {
      OpenGapAt(grown, moved, after, p, n, size, nu, p + n + k);
    }
  }

  /** One cell of OpenGap: a cell before p keeps its element, and cell k at
      or after p + n holds the old element k - n. */
  lemma OpenGapAt<T>(grown: seq<T>, moved: seq<T>, after: seq<T>,
                     p: nat, n: nat, size: nat, nu: nat, k: int)
    requires p <= size && size + n <= |grown| && nu == (if size - p < n then size - p else n)
    requires moved == Shifted(grown, size - nu + n, size + n, n)
    requires after == Shifted(moved, p + nu, size, nu)
    requires 0 <= k < p || p + n <= k < size + n
    ensures k < p ==> after[k] == grown[k]
    ensures k >= p + n ==> after[k] == grown[k - n]
  {
    if k < p {
      assert after[k] == moved[k];
    } else if k < size {
      assert nu == n;
      assert after[k] == moved[k - n];
    } else {
      assert after[k] == moved[k];
    }
  }

  /** The same cell arithmetic read on the elements: once the cells before p
      are kept and the old elements from p on start at p + n, the first
      size + n cells split around the gap as the old elements did. */
  lemma OpenedContents<T>(grown: seq<T>, after: seq<T>, p: nat, n: nat, size: nat)
    requires p <= size <= |grown| && size + n <= |after|
    requires after[..p] == grown[..p] && after[p + n..size + n] == grown[p..size]
    ensures after[..size + n][..p] == grown[..size][..p]
    ensures after[..size + n][p + n..] == grown[..size][p..]
  {
    assert after[..size + n][..p] == after[..p] && grown[..size][..p] == grown[..p];
    assert after[..size + n][p + n..] == after[p + n..size + n];
  }

  /** A copy of the run [lo - d, hi - d) into [lo, hi) that leaves the other
      cells alone is the shift of that run by d cells. */
  lemma SlicesShifted<T>(before: seq<T>, after: seq<T>, lo: int, hi: int, d: int)
    requires 0 <= lo <= hi <= |before| == |after| && 0 <= lo - d && hi - d <= |before|
    requires after[..lo] == before[..lo] && after[hi..] == before[hi..]
    requires after[lo..hi] == before[lo - d..hi - d]
    ensures after == Shifted(before, lo, hi, d)
  {
    forall k | 0 <= k < |after|
      ensures after[k] == Shifted(before, lo, hi, d)[k]
    {
      if k < lo {
        assert after[k] == after[..lo][k];
      } else if k < hi {
        assert after[k] == after[lo..hi][k - lo];
      } else {
        assert after[k] == after[hi..][k - hi];
      }
    }
  }

  /** Two moves by the same d make one when the run moved second reads no
      cell the first one wrote: the low run first, for a shift to the left. */
  lemma ShiftedLowFirst<T>(c: seq<T>, lo: int, mid: int, hi: int, d: int)
    requires 0 <= lo <= mid <= hi <= |c| && 0 <= lo - d && hi - d <= |c| && d <= 0
    ensures Shifted(Shifted(c, lo, mid, d), mid, hi, d) == Shifted(c, lo, hi, d)
  {
  }

  /** The same for a shift to the right, the high run first. */
  lemma ShiftedHighFirst<T>(c: seq<T>, lo: int, mid: int, hi: int, d: int)
    requires 0 <= lo <= mid <= hi <= |c| && 0 <= lo - d && hi - d <= |c| && d >= 0
    ensures Shifted(Shifted(c, mid, hi, d), lo, mid, d) == Shifted(c, lo, hi, d)
  {
  }

  /** The run of cells [lo - d, hi - d) of a moved d cells on, into [lo, hi):
      by MoveConstruct, a forward walk, or (backward) by
      MoveConstructBackward, a walk from the back, which is the one that is
      right when the runs overlap and d > 0. */
  method MoveRun<T>(a: array<T>, lo: nat, hi: nat, d: int, backward: bool)
    requires lo <= hi <= a.Length && 0 <= lo - d && hi - d <= a.Length
    requires backward ==> d >= 0
    requires !backward ==> d <= 0 || hi - d <= lo
    modifies a
    ensures a[..] == Shifted(old(a[..]), lo, hi, d)
  {
    if backward {
      var _ := MoveConstructBackward(a, lo - d, hi - d, a, hi);
    } else {
      var _ := MoveConstruct(a, lo - d, hi - d, a, lo);
    }
    SlicesShifted(old(a[..]), a[..], lo, hi, d);
  }

  /** MoveConstruct(first, last, firstOut): like std::move(first, last, firstOut)
      but for raw target cells. Cells are values here, so it writes src[first + i]
      into out[firstOut + i] in a forward walk and returns the position past the
      last cell written. On one array the walk is correct when the target starts
      at or before the source, or after it ends. */
  method MoveConstruct<T>(src: array<T>, first: nat, last: nat, out: array<T>, firstOut: nat)
    returns (r: nat)
    requires first <= last <= src.Length
    requires firstOut + (last - first) <= out.Length
    requires src == out ==> firstOut <= first || last <= firstOut
    modifies out
    ensures r == firstOut + (last - first)
    ensures out[firstOut..r] == old(src[first..last])
    ensures out[..firstOut] == old(out[..firstOut]) && out[r..] == old(out[r..])
  {
    var i, o := first, firstOut;
    while i != last
      invariant first <= i <= last
      invariant o == firstOut + (i - first)
      invariant forall k :: firstOut <= k < o ==> out[k] == old(src[k - firstOut + first])
      invariant forall k :: i <= k < last ==> src[k] == old(src[k])
      invariant forall k :: 0 <= k < out.Length && !(firstOut <= k < o) ==> out[k] == old(out[k])
    {
      out[o] := src[i];
      o, i := o + 1, i + 1;
    }
    r := o;
    assert out[firstOut..r] == old(src[first..last]);
  }

  /** MoveConstructBackward(first, last, firstOut): like std::move_backward; the
      target range ENDS at firstOut and is filled from the back. It returns the
      start of the target range. On one array the walk is correct when the
      target ends at or after the source's end (a shift to the right), or
      ends before the source starts. */
  method MoveConstructBackward<T>(src: array<T>, first: nat, last: nat, out: array<T>, firstOut: nat)
    returns (r: nat)
    requires first <= last <= src.Length
    requires last - first <= firstOut <= out.Length
    requires src == out ==> last <= firstOut || firstOut <= first
    modifies out
    ensures r == firstOut - (last - first)
    ensures out[r..firstOut] == old(src[first..last])
    ensures out[..r] == old(out[..r]) && out[firstOut..] == old(out[firstOut..])
  {
    var l, o := last, firstOut;
    while l != first
      invariant first <= l <= last
      invariant o == firstOut - (last - l)
      invariant forall k :: o <= k < firstOut ==> out[k] == old(src[k - o + l])
      invariant forall k :: first <= k < l ==> src[k] == old(src[k])
      invariant forall k :: 0 <= k < out.Length && !(o <= k < firstOut) ==> out[k] == old(out[k])
    {
      o, l := o - 1, l - 1;
      out[o] := src[l];
    }
    r := o;
    assert out[r..firstOut] == old(src[first..last]);
  }
}
