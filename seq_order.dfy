/** The non-member comparison operators of all three containers. Each one
    compares the ranges [begin(), end()) of its operands, so it is a function of
    the two element sequences alone; the containers' capacities and block sizes
    play no part. */
module SeqOrder {

  /** operator==: sizes equal, then std::equal over the elements. */
  function Equal<T(==)>(lhs: seq<T>, rhs: seq<T>): (r: bool)
    ensures r <==> lhs == rhs
  {
    |lhs| == |rhs| && forall i :: 0 <= i < |lhs| ==> lhs[i] == rhs[i]
  }

  /** operator!= is !(rhs == lhs). */
  function NotEqual<T(==)>(lhs: seq<T>, rhs: seq<T>): (r: bool)
    ensures r <==> lhs != rhs
  {
    !Equal(rhs, lhs)
  }

  /** operator<: std::lexicographical_compare with the element type's `<`,
      given here as `lt`. Elements that are not ordered either way count as
      equivalent and the walk goes on; a proper prefix is smaller. */
  function LexLess<T>(lhs: seq<T>, rhs: seq<T>, lt: (T, T) -> bool): bool
    decreases |lhs|
  {
    if |lhs| == 0 || |rhs| == 0 then |lhs| == 0 && |rhs| != 0
    else if lt(lhs[0], rhs[0]) then true
    else if lt(rhs[0], lhs[0]) then false
    else LexLess(lhs[1..], rhs[1..], lt)
  }

  /** operator<= is !(rhs < lhs). */
  function LessEq<T>(lhs: seq<T>, rhs: seq<T>, lt: (T, T) -> bool): bool
  {
    !LexLess(rhs, lhs, lt)
  }

  /** operator> is rhs < lhs. */
  function Greater<T>(lhs: seq<T>, rhs: seq<T>, lt: (T, T) -> bool): bool
  {
    LexLess(rhs, lhs, lt)
  }

  /** operator>= is !(lhs < rhs). */
  function GreaterEq<T>(lhs: seq<T>, rhs: seq<T>, lt: (T, T) -> bool): bool
  {
    !LexLess(lhs, rhs, lt)
  }

  /** Neither element is ordered before the other. */
  predicate Equivalent<T>(x: T, y: T, lt: (T, T) -> bool)
  {
    !lt(x, y) && !lt(y, x)
  }

  /** The first k elements are pairwise equivalent and position k decides:
      lhs ends there while rhs goes on, or lhs[k] < rhs[k]. */
  predicate LexWitness<T>(lhs: seq<T>, rhs: seq<T>, lt: (T, T) -> bool, k: nat)
  {
    && k <= |lhs| && k <= |rhs|
    && (forall i :: 0 <= i < k ==> Equivalent(lhs[i], rhs[i], lt))
    && ((k == |lhs| && k < |rhs|) || (k < |lhs| && k < |rhs| && lt(lhs[k], rhs[k])))
  }

  /** `lt` is a strict total order as far as equality goes: two elements are
      equivalent exactly when they are equal, and `lt` is asymmetric. */
  ghost predicate Trichotomous<T(!new)>(lt: (T, T) -> bool)
  {
    && (forall x: T, y: T :: Equivalent(x, y, lt) <==> x == y)
    && (forall x: T, y: T :: lt(x, y) ==> !lt(y, x))
  }

  /** operator< holds exactly when there is a deciding position after a run of
      equivalent elements: the textbook definition of lexicographic order. */
  lemma {:induction false} LexLessIff<T>(lhs: seq<T>, rhs: seq<T>, lt: (T, T) -> bool)
    ensures LexLess(lhs, rhs, lt) <==> exists k: nat :: LexWitness(lhs, rhs, lt, k)
    decreases |lhs|
  {
    if |lhs| == 0 || |rhs| == 0 {
      if LexLess(lhs, rhs, lt) {
        assert LexWitness(lhs, rhs, lt, 0);
      }
    } else if lt(lhs[0], rhs[0]) {
      assert LexWitness(lhs, rhs, lt, 0);
    } else if lt(rhs[0], lhs[0]) {
      forall k: nat ensures !LexWitness(lhs, rhs, lt, k) {
        if k > 0 {
          assert !Equivalent(lhs[0], rhs[0], lt);
        }
      }
    } else {
      LexLessIff(lhs[1..], rhs[1..], lt);
      if LexLess(lhs, rhs, lt) {
        var k: nat :| LexWitness(lhs[1..], rhs[1..], lt, k);
        forall i | 0 <= i < k + 1 ensures Equivalent(lhs[i], rhs[i], lt) {
          if i > 0 {
            assert lhs[i] == lhs[1..][i - 1] && rhs[i] == rhs[1..][i - 1];
          }
        }
        assert LexWitness(lhs, rhs, lt, k + 1);
      }
      if exists k: nat :: LexWitness(lhs, rhs, lt, k) {
        var k: nat :| LexWitness(lhs, rhs, lt, k);
        assert k > 0;
        forall i | 0 <= i < k - 1 ensures Equivalent(lhs[1..][i], rhs[1..][i], lt) {
          assert Equivalent(lhs[i + 1], rhs[i + 1], lt);
        }
        assert LexWitness(lhs[1..], rhs[1..], lt, k - 1);
      }
    }
  }

  /** For a trichotomous `lt`, exactly one of lhs < rhs, lhs == rhs and
      rhs < lhs holds. */
  lemma {:induction false} Trichotomy<T(!new)>(lhs: seq<T>, rhs: seq<T>, lt: (T, T) -> bool)
    requires Trichotomous(lt)
    ensures LexLess(lhs, rhs, lt) || lhs == rhs || LexLess(rhs, lhs, lt)
    ensures !(LexLess(lhs, rhs, lt) && lhs == rhs)
    ensures !(LexLess(lhs, rhs, lt) && LexLess(rhs, lhs, lt))
    ensures !(lhs == rhs && LexLess(rhs, lhs, lt))
    decreases |lhs|
  {
    if |lhs| == 0 || |rhs| == 0 {
    } else if lt(lhs[0], rhs[0]) || lt(rhs[0], lhs[0]) {
      assert lhs[0] != rhs[0] by {
        assert !Equivalent(lhs[0], rhs[0], lt);
      }
    } else {
      assert Equivalent(lhs[0], rhs[0], lt);
      Trichotomy(lhs[1..], rhs[1..], lt);
      assert lhs == [lhs[0]] + lhs[1..] && rhs == [rhs[0]] + rhs[1..];
    }
  }

  /** For a trichotomous `lt`, operator<= means "less or equal", operator>
      and operator>= are their mirror images. */
  lemma DerivedOperators<T(!new)>(lhs: seq<T>, rhs: seq<T>, lt: (T, T) -> bool)
    requires Trichotomous(lt)
    ensures LessEq(lhs, rhs, lt) <==> LexLess(lhs, rhs, lt) || lhs == rhs
    ensures GreaterEq(lhs, rhs, lt) <==> Greater(lhs, rhs, lt) || lhs == rhs
    ensures Greater(lhs, rhs, lt) <==> LexLess(rhs, lhs, lt)
  {
    Trichotomy(lhs, rhs, lt);
  }

  /** A proper prefix compares smaller (take a container, pop_back, compare),
      whenever `lt` is irreflexive. */
  lemma {:induction false} PrefixIsLess<T>(s: seq<T>, tail: seq<T>, lt: (T, T) -> bool)
    requires |tail| > 0
    requires forall x: T :: !lt(x, x)
    ensures LexLess(s, s + tail, lt)
    ensures !LexLess(s + tail, s, lt)
    decreases |s|
  {
    if |s| > 0 {
      assert (s + tail)[0] == s[0];
      assert (s + tail)[1..] == s[1..] + tail;
      PrefixIsLess(s[1..], tail, lt);
    }
  }
}
