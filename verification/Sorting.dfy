/** Stable insertion sort by any comparison, as Python's `sorted` and `bisect.insort_right` order their results. */
module Sorting {
  /** Inserts after every element that is not greater. */
  function InsertBy<T>(before: (T, T) -> bool, x: T, s: seq<T>): seq<T> {
    if s == [] || before(x, s[0]) then [x] + s else [s[0]] + InsertBy(before, x, s[1..])
  }

  function SortBy<T>(before: (T, T) -> bool, s: seq<T>): seq<T> {
    if s == [] then [] else InsertBy(before, s[|s| - 1], SortBy(before, s[..|s| - 1]))
  }

  lemma {:induction false} InsertPermutes<T>(before: (T, T) -> bool, x: T, s: seq<T>)
    ensures multiset(InsertBy(before, x, s)) == multiset(s) + multiset{x}
  {
    if s != [] && !before(x, s[0]) {
      assert s == [s[0]] + s[1..];
      InsertPermutes(before, x, s[1..]);
    }
  }

  lemma {:induction false} SortPermutes<T>(before: (T, T) -> bool, s: seq<T>)
    ensures multiset(SortBy(before, s)) == multiset(s)
  {
    if s != [] {
      assert s == s[..|s| - 1] + [s[|s| - 1]];
      SortPermutes(before, s[..|s| - 1]);
      InsertPermutes(before, s[|s| - 1], SortBy(before, s[..|s| - 1]));
    }
  }

  lemma SortSnoc<T>(before: (T, T) -> bool, s: seq<T>, x: T)
    ensures SortBy(before, s + [x]) == InsertBy(before, x, SortBy(before, s))
  {
    assert (s + [x])[..|s|] == s;
  }

  // ----- order

  /** Incomparable elements may be distinct, as with equal sort keys. */
  ghost predicate WeakOrder<T(!new)>(before: (T, T) -> bool) {
    && (forall x, y :: before(x, y) ==> !before(y, x))
    && (forall x, y, z :: before(x, y) ==> before(x, z) || before(z, y))
  }

  ghost predicate InOrder<T>(before: (T, T) -> bool, s: seq<T>) {
    forall i, j | 0 <= i < j < |s| :: !before(s[j], s[i])
  }

  lemma OrderCons<T>(before: (T, T) -> bool, x: T, s: seq<T>)
    requires InOrder(before, s) && forall y | y in s :: !before(y, x)
    ensures InOrder(before, [x] + s)
  {
    forall i, j | 0 <= i < j < |[x] + s| ensures !before(([x] + s)[j], ([x] + s)[i]) {
      assert ([x] + s)[j] == s[j - 1] && s[j - 1] in s;
    }
  }

  lemma {:induction false} InsertMembers<T>(before: (T, T) -> bool, x: T, s: seq<T>, y: T)
    ensures y in InsertBy(before, x, s) <==> y == x || y in s
  {
    if s != [] && !before(x, s[0]) {
      assert s == [s[0]] + s[1..];
      InsertMembers(before, x, s[1..], y);
    }
  }

  lemma {:induction false} InsertKeepsOrder<T(!new)>(before: (T, T) -> bool, x: T, s: seq<T>)
    requires WeakOrder(before) && InOrder(before, s)
    ensures InOrder(before, InsertBy(before, x, s))
  {
    if s == [] {
    } else if before(x, s[0]) {
      var first := s[0];
      forall y | y in s ensures !before(y, x) {
        var i :| 0 <= i < |s| && s[i] == y;
        assert before(y, x) ==> before(y, first) || before(first, x);
      }
      OrderCons(before, x, s);
    } else {
      var rest := s[1..];
      assert forall i | 0 <= i < |rest| :: rest[i] == s[i + 1];
      InsertKeepsOrder(before, x, rest);
      forall y | y in InsertBy(before, x, rest) ensures !before(y, s[0]) {
        InsertMembers(before, x, rest, y);
      }
      OrderCons(before, s[0], InsertBy(before, x, rest));
    }
  }

  lemma {:induction false} SortSorts<T(!new)>(before: (T, T) -> bool, s: seq<T>)
    requires WeakOrder(before)
    ensures InOrder(before, SortBy(before, s))
  {
    if s != [] {
      SortSorts(before, s[..|s| - 1]);
      InsertKeepsOrder(before, s[|s| - 1], SortBy(before, s[..|s| - 1]));
    }
  }
}
