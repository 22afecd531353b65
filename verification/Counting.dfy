/** Counting occurrences in a sequence, and the distinct elements a capped table keeps. */
module Counting {
  import opened Basics

  function Occurrences<T(==)>(s: seq<T>, x: T): nat {
    if s == [] then 0 else Occurrences(s[..|s| - 1], x) + (if s[|s| - 1] == x then 1 else 0)
  }

  /** The distinct elements in order of first occurrence. */
  function DistinctOf<T(==)>(s: seq<T>): seq<T> {
    if s == [] then [] else
      var init := s[..|s| - 1];
      var last := s[|s| - 1];
      if last in init then DistinctOf(init) else DistinctOf(init) + [last]
  }

  /** What a table that stops accepting new keys at `cap` keeps of `s`. */
  function Tracked<T(==)>(s: seq<T>, cap: nat): (r: seq<T>)
    ensures |r| <= cap
  {
    Take(DistinctOf(s), cap)
  }

  lemma OneMore<T(!new)>(s: seq<T>, x: T)
    ensures (s + [x])[..|s|] == s && (s + [x])[|s|] == x
    ensures DistinctOf(s + [x]) == DistinctOf(s) + (if x in s then [] else [x])
    ensures forall y :: Occurrences(s + [x], y) == Occurrences(s, y) + (if x == y then 1 else 0)
  {
    assert (s + [x])[..|s|] == s;
  }

  lemma {:induction false} DistinctMembers<T(!new)>(s: seq<T>)
    ensures forall x :: x in DistinctOf(s) <==> x in s
    ensures forall i, j | 0 <= i < j < |DistinctOf(s)| :: DistinctOf(s)[i] != DistinctOf(s)[j]
  {
    if s != [] {
      var init, last := s[..|s| - 1], s[|s| - 1];
      assert s == init + [last];
      DistinctMembers(init);
    }
  }

  lemma {:induction false} NoOccurrences<T(!new)>(s: seq<T>, x: T)
    ensures Occurrences(s, x) == 0 <==> x !in s
  {
    if s != [] {
      assert s == s[..|s| - 1] + [s[|s| - 1]];
      NoOccurrences(s[..|s| - 1], x);
    }
  }

  lemma {:induction false} OccurrencesConcat<T(!new)>(a: seq<T>, b: seq<T>, x: T)
    ensures Occurrences(a + b, x) == Occurrences(a, x) + Occurrences(b, x)
    decreases |b|
  {
    if b == [] {
      assert a + b == a;
    } else {
      assert (a + b)[..|a + b| - 1] == a + b[..|b| - 1];
      OccurrencesConcat(a, b[..|b| - 1], x);
    }
  }

  /** How `Tracked` moves when one more element arrives. */
  lemma TrackedGrows<T(!new)>(s: seq<T>, x: T, cap: nat)
    ensures Tracked(s + [x], cap) ==
      if x !in Tracked(s, cap) && |Tracked(s, cap)| < cap then Tracked(s, cap) + [x] else Tracked(s, cap)
    ensures |Tracked(s, cap)| < cap ==> (x in Tracked(s, cap) <==> x in s)
  {
    OneMore(s, x);
    DistinctMembers(s);
  }

  lemma TrackedMembers<T(!new)>(s: seq<T>, cap: nat)
    ensures forall x | x in Tracked(s, cap) :: x in s
    ensures forall i, j | 0 <= i < j < |Tracked(s, cap)| :: Tracked(s, cap)[i] != Tracked(s, cap)[j]
  {
    DistinctMembers(s);
    var d := DistinctOf(s);
    forall x | x in Tracked(s, cap) ensures x in s { assert x in d; }
  }

  function Elements<T>(s: seq<T>): set<T> {
    set x | x in s
  }

  /** The elements of a part are no more than those of the whole. */
  lemma DistinctOfPart<T(!new)>(part: seq<T>, whole: seq<T>)
    requires forall x | x in part :: x in whole
    ensures |DistinctOf(part)| <= |DistinctOf(whole)|
  {
    DistinctSize(part);
    DistinctSize(whole);
    SubsetSize(Elements(part), Elements(whole));
  }

  lemma {:induction false} DistinctSize<T(!new)>(s: seq<T>)
    ensures |DistinctOf(s)| == |Elements(s)|
  {
    if s == [] {
      assert Elements(s) == {};
    } else {
      var init, last := s[..|s| - 1], s[|s| - 1];
      assert s == init + [last];
      DistinctSize(init);
      OneMore(init, last);
      if last in init {
        assert Elements(s) == Elements(init);
      } else {
        assert Elements(s) == Elements(init) + {last} && last !in Elements(init);
      }
    }
  }

  lemma {:induction false} SubsetSize<T(!new)>(a: set<T>, b: set<T>)
    requires a <= b
    ensures |a| <= |b|
    decreases |a|
  {
    if a != {} {
      var x :| x in a;
      SubsetSize(a - {x}, b - {x});
    }
  }

  // ----- conservation

  function Total<T(==)>(keys: seq<T>, s: seq<T>): nat {
    if keys == [] then 0 else Occurrences(s, keys[0]) + Total(keys[1..], s)
  }

  /** The elements of `s` outside `keys`. */
  function Outside<T(==)>(keys: seq<T>, s: seq<T>): nat {
    if s == [] then 0 else Outside(keys, s[..|s| - 1]) + (if s[|s| - 1] in keys then 0 else 1)
  }

  lemma {:induction false} TotalStep<T(!new)>(keys: seq<T>, s: seq<T>, x: T)
    requires forall i, j | 0 <= i < j < |keys| :: keys[i] != keys[j]
    ensures Total(keys, s + [x]) == Total(keys, s) + (if x in keys then 1 else 0)
  {
    OneMore(s, x);
    if keys != [] {
      assert forall i | 0 <= i < |keys| - 1 :: keys[1..][i] == keys[i + 1];
      TotalStep(keys[1..], s, x);
      assert keys == [keys[0]] + keys[1..];
    }
  }

  /** Every element is counted under its key or as being outside: nothing is lost or counted twice. */
  lemma {:induction false} Conservation<T(!new)>(keys: seq<T>, s: seq<T>)
    requires forall i, j | 0 <= i < j < |keys| :: keys[i] != keys[j]
    ensures Total(keys, s) + Outside(keys, s) == |s|
  {
    if s == [] {
      TotalOfNothing(keys);
    } else {
      Conservation(keys, s[..|s| - 1]);
      TotalStep(keys, s[..|s| - 1], s[|s| - 1]);
      assert s == s[..|s| - 1] + [s[|s| - 1]];
    }
  }

  lemma {:induction false} TotalOfNothing<T(!new)>(keys: seq<T>)
    ensures Total(keys, []) == 0
  {
    if keys != [] { TotalOfNothing(keys[1..]); }
  }

  lemma {:induction false} OutsideNothing<T(!new)>(keys: seq<T>, s: seq<T>)
    requires forall x | x in s :: x in keys
    ensures Outside(keys, s) == 0
  {
    if s != [] {
      assert s[|s| - 1] in s;
      OutsideNothing(keys, s[..|s| - 1]);
    }
  }
}
