/**
  The sort behind `[...data].sort(compare)` and `list.slice().sort(compare)`: a comparator
  is read as the relation `le(a, b)` ("compare(a, b) <= 0"), and the sort is the stable
  sort ECMAScript 2019 requires of `Array.prototype.sort`. The copy is implicit: sequences
  are values, so the caller's list is never changed.
 */
module Sorting {

  /** A comparator that orders consistently: total and transitive. */
  ghost predicate TotalPreorder<T(!new)>(le: (T, T) -> bool) {
    && (forall a, b :: le(a, b) || le(b, a))
    && (forall a, b, c :: le(a, b) && le(b, c) ==> le(a, c))
  }

  ghost predicate SortedBy<T>(s: seq<T>, le: (T, T) -> bool) {
    forall i, j :: 0 <= i < j < |s| ==> le(s[i], s[j])
  }

  /** Puts `x` in front of the first element it does not come after. */
  function Insert<T>(x: T, s: seq<T>, le: (T, T) -> bool): (r: seq<T>)
    ensures |r| == |s| + 1
    ensures multiset(r) == multiset(s) + multiset{x}
  {
    if s == [] then [x]
    else if le(x, s[0]) then [x] + s
    else
      assert s == [s[0]] + s[1..];
      [s[0]] + Insert(x, s[1..], le)
  }

  function Sort<T>(s: seq<T>, le: (T, T) -> bool): (r: seq<T>)
    ensures |r| == |s|
    ensures multiset(r) == multiset(s)
  {
    if s == [] then []
    else
      assert s == [s[0]] + s[1..];
      Insert(s[0], Sort(s[1..], le), le)
  }

  lemma {:induction false} InsertSorted<T(!new)>(x: T, s: seq<T>, le: (T, T) -> bool)
    requires TotalPreorder(le)
    requires SortedBy(s, le)
    ensures SortedBy(Insert(x, s, le), le)
  {
    if s != [] && !le(x, s[0]) {
      var t := Insert(x, s[1..], le);
      InsertSorted(x, s[1..], le);
      assert le(s[0], x);
      forall j | 0 <= j < |t| ensures le(s[0], t[j]) {
        assert t[j] in multiset(t);
        assert t[j] == x || t[j] in multiset(s[1..]);
        if t[j] != x {
          var k :| 0 <= k < |s[1..]| && s[1..][k] == t[j];
          assert s[k + 1] == t[j];
        }
      }
    }
  }

  /** The result is ordered by `le` (it is a permutation by Sort's own contract). */
  lemma {:induction false} SortSorted<T(!new)>(s: seq<T>, le: (T, T) -> bool)
    requires TotalPreorder(le)
    ensures SortedBy(Sort(s, le), le)
  {
    if s != [] {
      SortSorted(s[1..], le);
      InsertSorted(s[0], Sort(s[1..], le), le);
    }
  }

  ghost predicate Equivalent<T>(le: (T, T) -> bool, a: T, b: T) {
    le(a, b) && le(b, a)
  }

  /** The elements of `s` that `le` ranks equal to `e`, in their order in `s`. */
  ghost function Tied<T>(s: seq<T>, le: (T, T) -> bool, e: T): seq<T> {
    if s == [] then []
    else (if Equivalent(le, s[0], e) then [s[0]] else []) + Tied(s[1..], le, e)
  }

  /** An element ranked equal to `e` is not strictly below another element ranked equal to `e`. */
  lemma TiedNotBelow<T(!new)>(le: (T, T) -> bool, x: T, y: T, e: T)
    requires TotalPreorder(le)
    requires Equivalent(le, x, e) && !le(x, y)
    ensures !Equivalent(le, y, e)
  {
  }

  lemma TiedCons<T>(x: T, s: seq<T>, le: (T, T) -> bool, e: T)
    ensures Tied([x] + s, le, e) == (if Equivalent(le, x, e) then [x] else []) + Tied(s, le, e)
  {
    assert ([x] + s)[0] == x && ([x] + s)[1..] == s;
  }

  /** Two prefixes of which one is empty may be swapped. */
  lemma SwapEmptyPrefix<T>(a: seq<T>, b: seq<T>, t: seq<T>)
    requires a == [] || b == []
    ensures a + (b + t) == b + (a + t)
  {
    if a == [] {
      assert a + (b + t) == b + t && a + t == t;
    } else {
      assert b + (a + t) == a + t && b + t == t;
    }
  }

  /** When `x` goes past `y`, the two cannot both be ranked equal to `e`. */
  lemma PassedNotBothTied<T(!new)>(le: (T, T) -> bool, x: T, y: T, e: T)
    requires TotalPreorder(le) && !le(x, y)
    ensures (if Equivalent(le, y, e) then [y] else []) == [] || (if Equivalent(le, x, e) then [x] else []) == []
  {
    if Equivalent(le, x, e) {
      TiedNotBelow(le, x, y, e);
    }
  }

  lemma {:induction false} InsertTied<T(!new)>(x: T, s: seq<T>, le: (T, T) -> bool, e: T)
    requires TotalPreorder(le)
    ensures Tied(Insert(x, s, le), le, e)
         == (if Equivalent(le, x, e) then [x] else []) + Tied(s, le, e)
  {
    if s == [] {
      TiedCons(x, [], le, e);
    } else if le(x, s[0]) {
      TiedCons(x, s, le, e);
    } else {
      var rest := Insert(x, s[1..], le);
      var cx := if Equivalent(le, x, e) then [x] else [];
      var c0 := if Equivalent(le, s[0], e) then [s[0]] else [];
      assert Insert(x, s, le) == [s[0]] + rest;
      InsertTied(x, s[1..], le, e);
      TiedCons(s[0], rest, le, e);
      assert Tied(Insert(x, s, le), le, e) == c0 + (cx + Tied(s[1..], le, e));
      TiedCons(s[0], s[1..], le, e);
      assert [s[0]] + s[1..] == s;
      assert Tied(s, le, e) == c0 + Tied(s[1..], le, e);
      PassedNotBothTied(le, x, s[0], e);
      SwapEmptyPrefix(c0, cx, Tied(s[1..], le, e));
    }
  }

  /** Stability: elements that compare equal keep their input order. */
  lemma {:induction false} SortStable<T(!new)>(s: seq<T>, le: (T, T) -> bool, e: T)
    requires TotalPreorder(le)
    ensures Tied(Sort(s, le), le, e) == Tied(s, le, e)
  {
    if s != [] {
      SortStable(s[1..], le, e);
      InsertTied(s[0], Sort(s[1..], le), le, e);
    }
  }
}
