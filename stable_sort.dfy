/**
 * The stable sort of `Array.prototype.sort` with a comparator that returns a
 * number: a negative result puts the first argument first, a positive one
 * the second, and zero keeps the two in their original order.
 */
module StableSort {

  /**
   * A comparator the engine can sort by: swapping the arguments flips the
   * sign of the result, and "not after" is transitive.
   */
  ghost predicate Consistent<T(!new)>(cmp: (T, T) -> int) {
    && (forall a, b :: cmp(a, b) < 0 <==> cmp(b, a) > 0)
    && (forall a, b, c :: cmp(a, b) <= 0 && cmp(b, c) <= 0 ==> cmp(a, c) <= 0)
  }

  /** No element of `s` is ordered after one that follows it. */
  ghost predicate SortedBy<T>(s: seq<T>, cmp: (T, T) -> int) {
    forall i, j :: 0 <= i < j < |s| ==> cmp(s[i], s[j]) <= 0
  }

  /** Puts `x` in front of the first element that it is not ordered after. */
  function Insert<T>(x: T, s: seq<T>, cmp: (T, T) -> int): seq<T> {
    if s == [] then [x]
    else if cmp(x, s[0]) <= 0 then [x] + s
    else [s[0]] + Insert(x, s[1..], cmp)
  }

  /**
   * Stable insertion sort. Every element goes in front of the elements it ties
   * with, and those all came after it in `s`, so ties keep their order.
   */
  function Sort<T>(s: seq<T>, cmp: (T, T) -> int): seq<T> {
    if s == [] then [] else Insert(s[0], Sort(s[1..], cmp), cmp)
  }

  /** The elements of `s` that tie with `e`, in their order in `s`. */
  function Ties<T>(s: seq<T>, cmp: (T, T) -> int, e: T): seq<T> {
    if s == [] then []
    else (if cmp(s[0], e) == 0 then [s[0]] else []) + Ties(s[1..], cmp, e)
  }

  lemma {:induction false} InsertPermutes<T>(x: T, s: seq<T>, cmp: (T, T) -> int)
    ensures multiset(Insert(x, s, cmp)) == multiset(s) + multiset{x}
  {
    if s != [] && cmp(x, s[0]) > 0 {
      InsertPermutes(x, s[1..], cmp);
      assert s == [s[0]] + s[1..];
    }
  }

  /** Sorting never adds or drops an element. */
  lemma {:induction false} SortPermutes<T>(s: seq<T>, cmp: (T, T) -> int)
    ensures multiset(Sort(s, cmp)) == multiset(s)
  {
    if s != [] {
      SortPermutes(s[1..], cmp);
      InsertPermutes(s[0], Sort(s[1..], cmp), cmp);
      assert s == [s[0]] + s[1..];
    }
  }

  lemma {:induction false} InsertSorted<T(!new)>(x: T, s: seq<T>, cmp: (T, T) -> int)
    requires Consistent(cmp) && SortedBy(s, cmp)
    ensures SortedBy(Insert(x, s, cmp), cmp)
  {
    if s != [] {
      if cmp(x, s[0]) <= 0 {
        var r := [x] + s;
        forall i, j | 0 <= i < j < |r| ensures cmp(r[i], r[j]) <= 0 {
          if i == 0 && j > 1 {
            assert cmp(s[0], s[j - 1]) <= 0;
          }
        }
      } else {
        assert cmp(s[0], x) < 0;
        var t := s[1..];
        assert SortedBy(t, cmp);
        InsertSorted(x, t, cmp);
        InsertPermutes(x, t, cmp);
        var u := Insert(x, t, cmp);
        var r := [s[0]] + u;
        forall i, j | 0 <= i < j < |r| ensures cmp(r[i], r[j]) <= 0 {
          if i == 0 {
            assert r[j] in multiset(u);
            assert r[j] == x || r[j] in t;
          }
        }
      }
    }
  }

  /** Sorting orders the whole sequence by the comparator. */
  lemma {:induction false} SortSorted<T(!new)>(s: seq<T>, cmp: (T, T) -> int)
    requires Consistent(cmp)
    ensures SortedBy(Sort(s, cmp), cmp)
  {
    if s != [] {
      SortSorted(s[1..], cmp);
      InsertSorted(s[0], Sort(s[1..], cmp), cmp);
    }
  }

  /**
   * Where an inserted element lands among its ties. The precondition is the
   * one fact about `cmp` the proof needs: what `TiesAreOrdered` gives under
   * `Consistent(cmp)`, which `SortStable` establishes before each call.
   */
  lemma {:induction false} InsertTies<T>(x: T, s: seq<T>, cmp: (T, T) -> int, e: T)
    requires forall y :: cmp(x, e) == 0 && cmp(y, e) == 0 ==> cmp(x, y) <= 0
    ensures Ties(Insert(x, s, cmp), cmp, e)
         == (if cmp(x, e) == 0 then [x] else []) + Ties(s, cmp, e)
  {
    if s == [] {
    } else if cmp(x, s[0]) <= 0 {
      assert ([x] + s)[1..] == s;
    } else {
      var u := Insert(x, s[1..], cmp);
      InsertTies(x, s[1..], cmp, e);
      assert ([s[0]] + u)[1..] == u;
      assert Ties([s[0]] + u, cmp, e) == (if cmp(s[0], e) == 0 then [s[0]] else []) + Ties(u, cmp, e);
      assert Ties(s, cmp, e) == (if cmp(s[0], e) == 0 then [s[0]] else []) + Ties(s[1..], cmp, e);
      // s[0] is strictly before x, so the two cannot both tie with e
      assert !(cmp(x, e) == 0 && cmp(s[0], e) == 0);
    }
  }

  /** Two elements that tie with the same `e` are not ordered apart. */
  lemma TiesAreOrdered<T(!new)>(x: T, y: T, cmp: (T, T) -> int, e: T)
    requires Consistent(cmp)
    ensures cmp(x, e) == 0 && cmp(y, e) == 0 ==> cmp(x, y) <= 0
  {
    assert cmp(e, y) < 0 <==> cmp(y, e) > 0;
  }

  /** Stability: the elements that tie with any `e` keep their relative order. */
  lemma {:induction false} SortStable<T(!new)>(s: seq<T>, cmp: (T, T) -> int, e: T)
    requires Consistent(cmp)
    ensures Ties(Sort(s, cmp), cmp, e) == Ties(s, cmp, e)
  {
    if s != [] {
      SortStable(s[1..], cmp, e);
      forall y ensures cmp(s[0], e) == 0 && cmp(y, e) == 0 ==> cmp(s[0], y) <= 0 {
        TiesAreOrdered(s[0], y, cmp, e);
      }
      InsertTies(s[0], Sort(s[1..], cmp), cmp, e);
    }
  }

  /** Only the sign test `cmp(a, b) <= 0` decides the result. */
  lemma {:induction false} SortSameOrder<T(!new)>(s: seq<T>, c1: (T, T) -> int, c2: (T, T) -> int)
    requires forall a, b :: c1(a, b) <= 0 <==> c2(a, b) <= 0
    ensures Sort(s, c1) == Sort(s, c2)
  {
    if s != [] {
      SortSameOrder(s[1..], c1, c2);
      InsertSameOrder(s[0], Sort(s[1..], c1), c1, c2);
    }
  }

  lemma {:induction false} InsertSameOrder<T(!new)>(x: T, s: seq<T>, c1: (T, T) -> int, c2: (T, T) -> int)
    requires forall a, b :: c1(a, b) <= 0 <==> c2(a, b) <= 0
    ensures Insert(x, s, c1) == Insert(x, s, c2)
  {
    if s != [] {
      InsertSameOrder(x, s[1..], c1, c2);
    }
  }
}
