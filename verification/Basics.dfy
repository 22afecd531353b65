/** Small vocabulary shared by the models. */
module Basics {
  datatype Option<T> = None | Some(value: T)

  function Smaller(a: nat, b: nat): nat { if a <= b then a else b }

  /** At most the first `n` elements. */
  function Take<T>(s: seq<T>, n: nat): (r: seq<T>)
    ensures |r| <= n && r <= s && (|s| <= n ==> r == s) && (|s| >= n ==> |r| == n)
  {
    if |s| <= n then s else s[..n]
  }

  ghost predicate Distinct<T>(s: seq<T>) {
    forall i, j | 0 <= i < j < |s| :: s[i] != s[j]
  }

  // ----- what filtering a sequence means

  /** `at` are ascending positions of `whole` that hold the elements of `part`. */
  ghost predicate Places<T>(at: seq<int>, part: seq<T>, whole: seq<T>) {
    && |at| == |part|
    && (forall k | 0 <= k < |at| :: 0 <= at[k] < |whole| && whole[at[k]] == part[k])
    && (forall j, k | 0 <= j < k < |at| :: at[j] < at[k])
  }

  /** The elements of `part` occur in `whole`, in this order. */
  ghost predicate Subsequence<T>(part: seq<T>, whole: seq<T>) {
    exists at :: Places(at, part, whole)
  }

  /** `part` is `whole` without the elements that are not to be kept: the others stay, in order and equally often. */
  ghost predicate Filters<T(!new)>(part: seq<T>, whole: seq<T>, keep: T -> bool) {
    && Subsequence(part, whole)
    && forall x :: multiset(part)[x] == if keep(x) then multiset(whole)[x] else 0
  }

  lemma FiltersNothing<T(!new)>(keep: T -> bool)
    ensures Filters([], [], keep)
  {
    var none: seq<T> := [];
    assert Places([], none, none);
  }

  lemma FiltersWhole<T(!new)>(whole: seq<T>, keep: T -> bool)
    requires forall x | x in whole :: keep(x)
    ensures Filters(whole, whole, keep)
  {
    assert Places(seq(|whole|, k => k), whole, whole);
    forall x ensures multiset(whole)[x] == if keep(x) then multiset(whole)[x] else 0 {
      assert x in whole <==> x in multiset(whole);
    }
  }

  lemma SubsequenceSnoc<T>(part: seq<T>, whole: seq<T>, x: T)
    requires Subsequence(part, whole)
    ensures Subsequence(part, whole + [x]) && Subsequence(part + [x], whole + [x])
  {
    var at :| Places(at, part, whole);
    assert Places(at, part, whole + [x]);
    assert Places(at + [|whole|], part + [x], whole + [x]);
  }

  lemma FiltersSnoc<T(!new)>(part: seq<T>, whole: seq<T>, keep: T -> bool, x: T)
    requires Filters(part, whole, keep)
    ensures Filters(part + if keep(x) then [x] else [], whole + [x], keep)
  {
    SubsequenceSnoc(part, whole, x);
    hide Subsequence;
    assert part + [] == part;
  }

  lemma PlacesCons<T>(at: seq<int>, part: seq<T>, whole: seq<T>, x: T)
    requires Places(at, part, whole)
    ensures Subsequence(part, [x] + whole) && Subsequence([x] + part, [x] + whole)
  {
    var more := [x] + whole;
    var later := seq(|at|, k requires 0 <= k < |at| => at[k] + 1);
    forall k | 0 <= k < |at| ensures more[later[k]] == part[k] { assert more[at[k] + 1] == whole[at[k]]; }
    assert Places(later, part, more);
    var all := [0] + later;
    forall k | 0 <= k < |all| ensures 0 <= all[k] < |more| && more[all[k]] == ([x] + part)[k] {
      if k > 0 { assert all[k] == later[k - 1] && ([x] + part)[k] == part[k - 1]; }
    }
    assert Places(all, [x] + part, more);
  }

  lemma FiltersCons<T(!new)>(part: seq<T>, whole: seq<T>, keep: T -> bool, x: T)
    requires Filters(part, whole, keep)
    ensures Filters((if keep(x) then [x] else []) + part, [x] + whole, keep)
  {
    var at :| Places(at, part, whole);
    PlacesCons(at, part, whole, x);
    hide Subsequence;
    assert [] + part == part;
  }

  lemma FiltersFrom<T(!new)>(part: seq<T>, whole: seq<T>, keep: T -> bool, from: nat)
    requires from < |whole| && Filters(part, whole[from + 1..], keep)
    ensures Filters((if keep(whole[from]) then [whole[from]] else []) + part, whole[from..], keep)
  {
    FiltersCons(part, whole[from + 1..], keep, whole[from]);
    assert whole[from..] == [whole[from]] + whole[from + 1..];
  }

  /** Leaving out the last element of the whole. */
  lemma PlacesInit<T>(at: seq<int>, part: seq<T>, whole: seq<T>, x: T)
    requires Places(at, part, whole + [x])
    ensures part == [] || at[|at| - 1] < |whole| ==> Places(at, part, whole)
    ensures part != [] && at[|at| - 1] == |whole| ==>
      part[|part| - 1] == x && Places(at[..|at| - 1], part[..|part| - 1], whole)
  {
    if part != [] && at[|at| - 1] == |whole| {
      var init, fewer := at[..|at| - 1], part[..|part| - 1];
      forall k | 0 <= k < |init| ensures 0 <= init[k] < |whole| && whole[init[k]] == fewer[k] {
        assert at[k] < at[|at| - 1];
        assert (whole + [x])[at[k]] == part[k];
      }
    } else {
      forall k | 0 <= k < |at| ensures 0 <= at[k] < |whole| && whole[at[k]] == part[k] {
        assert at[k] <= at[|at| - 1];
        assert (whole + [x])[at[k]] == part[k];
      }
    }
  }

  lemma {:induction false} SubsequenceCounts<T>(part: seq<T>, whole: seq<T>)
    requires Subsequence(part, whole)
    ensures multiset(part) <= multiset(whole)
    decreases |whole|
  {
    var at :| Places(at, part, whole);
    if whole != [] {
      var init, x := whole[..|whole| - 1], whole[|whole| - 1];
      assert whole == init + [x];
      PlacesInit(at, part, init, x);
      if part == [] || at[|at| - 1] < |init| {
        assert Subsequence(part, init);
        hide *;
        SubsequenceCounts(part, init);
      } else {
        var fewer := part[..|part| - 1];
        assert Subsequence(fewer, init) && part == fewer + [x];
        hide *;
        SubsequenceCounts(fewer, init);
      }
    }
  }

  lemma LeftOut<T(!new)>(part: seq<T>, whole: seq<T>, keep: T -> bool, x: T)
    requires Filters(part, whole + [x], keep) && Subsequence(part, whole)
    ensures !keep(x) && Filters(part, whole, keep)
  {
    SubsequenceCounts(part, whole);
    hide Subsequence;
    assert multiset(part)[x] <= multiset(whole)[x];
  }

  lemma KeptLast<T(!new)>(part: seq<T>, whole: seq<T>, keep: T -> bool, x: T)
    requires Filters(part + [x], whole + [x], keep) && Subsequence(part, whole)
    ensures keep(x) && Filters(part, whole, keep)
  {
    hide Subsequence;
    assert multiset(part + [x]) == multiset(part) + multiset{x};
    assert multiset(whole + [x]) == multiset(whole) + multiset{x};
  }

  /** A filtered sequence ends in the last element exactly when that is kept. */
  lemma FiltersInit<T(!new)>(part: seq<T>, whole: seq<T>, keep: T -> bool, x: T)
    requires Filters(part, whole + [x], keep)
    ensures !keep(x) ==> Filters(part, whole, keep)
    ensures keep(x) ==> part != [] && part[|part| - 1] == x && Filters(part[..|part| - 1], whole, keep)
  {
    var at :| Places(at, part, whole + [x]);
    PlacesInit(at, part, whole, x);
    if part == [] || at[|at| - 1] < |whole| {
      assert Subsequence(part, whole);
      hide *;
      LeftOut(part, whole, keep, x);
    } else {
      assert Subsequence(part[..|part| - 1], whole);
      assert part[..|part| - 1] + [x] == part;
      hide *;
      KeptLast(part[..|part| - 1], whole, keep, x);
    }
  }

  lemma FilteredNothing<T(!new)>(part: seq<T>, keep: T -> bool)
    requires Filters(part, [], keep)
    ensures part == []
  {
    hide *;
    if part != [] { FiltersMembers(part, [], keep, part[0]); }
  }

  lemma SameInit<T>(a: seq<T>, b: seq<T>, x: T)
    requires a != [] && b != [] && a[|a| - 1] == b[|b| - 1] == x && a[..|a| - 1] == b[..|b| - 1]
    ensures a == b
  {
    assert a == a[..|a| - 1] + [x] && b == b[..|b| - 1] + [x];
  }

  /** There is one way to filter a sequence. */
  lemma {:induction false} FiltersOneWay<T(!new)>(a: seq<T>, b: seq<T>, whole: seq<T>, keep: T -> bool)
    requires Filters(a, whole, keep) && Filters(b, whole, keep)
    ensures a == b
    decreases |whole|
  {
    hide *;
    if whole == [] {
      FilteredNothing(a, keep);
      FilteredNothing(b, keep);
    } else {
      var init, x := whole[..|whole| - 1], whole[|whole| - 1];
      assert init + [x] == whole;
      FiltersInit(a, init, keep, x);
      FiltersInit(b, init, keep, x);
      if keep(x) {
        var c, d := a[..|a| - 1], b[..|b| - 1];
        FiltersOneWay(c, d, init, keep);
        SameInit(a, b, x);
      } else {
        FiltersOneWay(a, b, init, keep);
      }
    }
  }

  /** Filtering decides membership. */
  lemma FiltersMembers<T(!new)>(part: seq<T>, whole: seq<T>, keep: T -> bool, x: T)
    requires Filters(part, whole, keep)
    ensures x in part <==> x in whole && keep(x)
  {
    assert x in part <==> x in multiset(part);
    assert x in whole <==> x in multiset(whole);
  }
}
