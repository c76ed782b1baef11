/**
 * A stable sort by a total preorder. `Array.prototype.sort` is required to be
 * stable (ECMAScript 2019 and later), and a stable sort by a total preorder has
 * exactly one possible result, so insertion sort gives the same answer as the
 * engine's own algorithm.
 */
module Sorting {

  /** `le` is total and transitive: what a consistent comparator provides. */
  ghost predicate IsTotalPreorder<T(!new)>(le: (T, T) -> bool)
  {
    && (forall a, b :: le(a, b) || le(b, a))
    && (forall a, b, c :: le(a, b) && le(b, c) ==> le(a, c))
  }

  ghost predicate Sorted<T>(s: seq<T>, le: (T, T) -> bool)
  {
    forall i, j :: 0 <= i < j < |s| ==> le(s[i], s[j])
  }

  /** The elements of `s` that `le` ranks equal to `x`, in their order in `s`. */
  function Ties<T>(s: seq<T>, x: T, le: (T, T) -> bool): seq<T>
  {
    if s == [] then []
    else (if le(s[0], x) && le(x, s[0]) then [s[0]] else []) + Ties(s[1..], x, le)
  }

  /** Puts `x` in front of the first element it is not greater than. */
  function Insert<T(!new)>(x: T, s: seq<T>, le: (T, T) -> bool): (r: seq<T>)
    requires IsTotalPreorder(le)
    requires Sorted(s, le)
    ensures Sorted(r, le)
    ensures multiset(r) == multiset(s) + multiset{x}
    ensures |r| == |s| + 1
  {
    if s == [] then [x]
    else if le(x, s[0]) then
      forall y | y in s ensures le(x, y) {
        var j :| 0 <= j < |s| && s[j] == y;
        assert le(s[0], s[j]) || j == 0;
      }
      ConsSorted(x, s, le);
      [x] + s
    else
      var t := Insert(x, s[1..], le);
      InsertKeepsHead(s, x, t, le);
      ConsSorted(s[0], t, le);
      assert s == [s[0]] + s[1..];
      [s[0]] + t
  }

  /** A head not above any element of a sorted tail gives a sorted sequence. */
  lemma ConsSorted<T>(h: T, t: seq<T>, le: (T, T) -> bool)
    requires Sorted(t, le) && forall y :: y in t ==> le(h, y)
    ensures Sorted([h] + t, le)
  {
    var r := [h] + t;
    forall i, j | 0 <= i < j < |r| ensures le(r[i], r[j]) {
      assert r[j] == t[j - 1];
      if i > 0 {
        assert r[i] == t[i - 1];
      }
    }
  }

  /** Inserting an element not below the head into the tail keeps every element not below the head. */
  lemma InsertKeepsHead<T(!new)>(s: seq<T>, x: T, t: seq<T>, le: (T, T) -> bool)
    requires IsTotalPreorder(le) && Sorted(s, le) && s != [] && !le(x, s[0])
    requires multiset(t) == multiset(s[1..]) + multiset{x}
    ensures forall y :: y in t ==> le(s[0], y)
  {
    forall y | y in t ensures le(s[0], y) {
      assert y in multiset(t);
      if y != x {
        assert y in multiset(s[1..]);
        var k :| 0 <= k < |s[1..]| && s[1..][k] == y;
        assert s[1 + k] == y;
      }
    }
  }

  /** Stable insertion sort. */
  function SortBy<T(!new)>(s: seq<T>, le: (T, T) -> bool): (r: seq<T>)
    requires IsTotalPreorder(le)
    ensures Sorted(r, le)
    ensures multiset(r) == multiset(s)
    ensures |r| == |s|
  {
    if s == [] then []
    else
      assert s == [s[0]] + s[1..];
      Insert(s[0], SortBy(s[1..], le), le)
  }

  /** The sort keeps exactly the elements of its input. */
  lemma SortByMembers<T(!new)>(s: seq<T>, le: (T, T) -> bool)
    requires IsTotalPreorder(le)
    ensures forall x :: x in SortBy(s, le) <==> x in s
  {
    var r := SortBy(s, le);
    assert forall x :: x in r <==> x in multiset(r);
    assert forall x :: x in s <==> x in multiset(s);
  }

  lemma {:induction false} TiesAppend<T>(a: seq<T>, b: seq<T>, x: T, le: (T, T) -> bool)
    ensures Ties(a + b, x, le) == Ties(a, x, le) + Ties(b, x, le)
  {
    if a == [] {
      assert a + b == b;
    } else {
      assert (a + b)[1..] == a[1..] + b;
      TiesAppend(a[1..], b, x, le);
    }
  }

  /** Inserting `y` puts `y`'s tie with `x` in front of the ties already in `s`. */
  lemma {:induction false} InsertTies<T(!new)>(y: T, s: seq<T>, x: T, le: (T, T) -> bool)
    requires IsTotalPreorder(le)
    requires Sorted(s, le)
    ensures Ties(Insert(y, s, le), x, le) == Ties([y], x, le) + Ties(s, x, le)
  {
    if s == [] {
    } else if le(y, s[0]) {
      TiesAppend([y], s, x, le);
    } else {
      InsertTies(y, s[1..], x, le);
      InsertTiesBehindHead(y, s, x, le);
    }
  }

  /** The step of `InsertTies` when `y` goes behind the head of `s`. */
  lemma InsertTiesBehindHead<T(!new)>(y: T, s: seq<T>, x: T, le: (T, T) -> bool)
    requires IsTotalPreorder(le) && Sorted(s, le) && s != [] && !le(y, s[0])
    requires Ties(Insert(y, s[1..], le), x, le) == Ties([y], x, le) + Ties(s[1..], x, le)
    ensures Ties(Insert(y, s, le), x, le) == Ties([y], x, le) + Ties(s, x, le)
  {
    var t := Insert(y, s[1..], le);
    assert Insert(y, s, le) == [s[0]] + t;
    NotBothTied(y, s[0], x, le);
    assert s == [s[0]] + s[1..];
    TiesSwapHead(s[0], y, t, s[1..], x, le);
  }

  /** With `h` strictly below `y`, `x` is tied with at most one of them. */
  lemma NotBothTied<T(!new)>(y: T, h: T, x: T, le: (T, T) -> bool)
    requires IsTotalPreorder(le) && !le(y, h)
    ensures Ties([y], x, le) == [] || Ties([h], x, le) == []
  {
    if le(y, x) && le(x, y) {
      assert !(le(x, h) && le(h, x));
    }
  }

  /** Putting `h` in front of `t` or of `rest` adds the same ties, when at most one of `h` and `y` is tied with `x`. */
  lemma TiesSwapHead<T>(h: T, y: T, t: seq<T>, rest: seq<T>, x: T, le: (T, T) -> bool)
    requires Ties(t, x, le) == Ties([y], x, le) + Ties(rest, x, le)
    requires Ties([y], x, le) == [] || Ties([h], x, le) == []
    ensures Ties([h] + t, x, le) == Ties([y], x, le) + Ties([h] + rest, x, le)
  {
    TiesAppend([h], t, x, le);
    TiesAppend([h], rest, x, le);
  }

  /** Stability: elements that compare equal keep their relative order. */
  lemma {:induction false} SortByStable<T(!new)>(s: seq<T>, x: T, le: (T, T) -> bool)
    requires IsTotalPreorder(le)
    ensures Ties(SortBy(s, le), x, le) == Ties(s, x, le)
  {
    if s != [] {
      SortByStable(s[1..], x, le);
      var sorted := SortBy(s[1..], le);
      InsertStable(s[0], s[1..], sorted, x, le);
      assert s == [s[0]] + s[1..];
      assert SortBy(s, le) == Insert(s[0], sorted, le);
    }
  }

  /** The step of `SortByStable`: inserting `h` into a stable sort of `rest` is a stable sort of `[h] + rest`. */
  lemma InsertStable<T(!new)>(h: T, rest: seq<T>, sorted: seq<T>, x: T, le: (T, T) -> bool)
    requires IsTotalPreorder(le) && Sorted(sorted, le)
    requires Ties(sorted, x, le) == Ties(rest, x, le)
    ensures Ties(Insert(h, sorted, le), x, le) == Ties([h] + rest, x, le)
  {
    InsertTies(h, sorted, x, le);
    TiesAppend([h], rest, x, le);
  }

  ghost predicate NoDuplicates<T>(s: seq<T>)
  {
    forall i, j :: 0 <= i < j < |s| ==> s[i] != s[j]
  }

  lemma {:induction false} NoDuplicatesCount<T>(s: seq<T>, x: T)
    requires NoDuplicates(s)
    ensures multiset(s)[x] <= 1
  {
    if s != [] {
      assert s == [s[0]] + s[1..];
      NoDuplicatesCount(s[1..], x);
      if x == s[0] {
        assert x !in s[1..];
      }
    }
  }

  lemma {:induction false} DuplicateCount<T>(s: seq<T>, i: nat, j: nat)
    requires i < j < |s| && s[i] == s[j]
    ensures multiset(s)[s[i]] >= 2
  {
    assert s == [s[0]] + s[1..];
    if i == 0 {
      assert s[1..][j - 1] == s[j];
      assert s[j] in multiset(s[1..]);
    } else {
      assert s[1..][i - 1] == s[i] && s[1..][j - 1] == s[j];
      DuplicateCount(s[1..], i - 1, j - 1);
    }
  }

  /** A permutation of a sequence without duplicates has none either. */
  lemma PermutationNoDuplicates<T>(a: seq<T>, b: seq<T>)
    requires multiset(a) == multiset(b) && NoDuplicates(a)
    ensures NoDuplicates(b)
  {
    forall i, j | 0 <= i < j < |b| ensures b[i] != b[j] {
      if b[i] == b[j] {
        DuplicateCount(b, i, j);
        NoDuplicatesCount(a, b[i]);
      }
    }
  }
}
