/** LogHound's capped minute histogram, per source and merged over sources. */
module Histogram {
  import opened Counting
  import opened Sorting

  const MAX_MINUTE_BUCKETS: nat := 32 * 24 * 60

  function Buckets(log: seq<(int, nat)>): (r: seq<int>)
    ensures |r| == |log| && forall i | 0 <= i < |log| :: r[i] == log[i].0
  {
    seq(|log|, i requires 0 <= i < |log| => log[i].0)
  }

  /** The sum of the counts logged for a bucket. */
  function Weight(log: seq<(int, nat)>, bucket: int): nat {
    if log == [] then 0 else
      Weight(log[..|log| - 1], bucket) + (if log[|log| - 1].0 == bucket then log[|log| - 1].1 else 0)
  }

  lemma OneMoreCount(log: seq<(int, nat)>, bucket: int, count: nat)
    ensures Buckets(log + [(bucket, count)]) == Buckets(log) + [bucket]
    ensures forall b :: Weight(log + [(bucket, count)], b) == Weight(log, b) + (if b == bucket then count else 0)
  {
    assert (log + [(bucket, count)])[..|log|] == log;
  }

  lemma {:induction false} NoWeight(log: seq<(int, nat)>, b: int)
    requires b !in Buckets(log)
    ensures Weight(log, b) == 0
  {
    if log != [] {
      var init := log[..|log| - 1];
      assert Buckets(log) == Buckets(init) + [log[|log| - 1].0];
      NoWeight(init, b);
    }
  }

  /** Every bucket ever logged fits the table. */
  ghost predicate Fits(log: seq<(int, nat)>) {
    |DistinctOf(Buckets(log))| <= MAX_MINUTE_BUCKETS
  }

  lemma FitsStep(log: seq<(int, nat)>, bucket: int, count: nat)
    ensures
      var kept := Tracked(Buckets(log), MAX_MINUTE_BUCKETS);
      Fits(log + [(bucket, count)]) <==> Fits(log) && (bucket in kept || |kept| < MAX_MINUTE_BUCKETS)
  {
    OneMoreCount(log, bucket, count);
    OneMore(Buckets(log), bucket);
    DistinctMembers(Buckets(log));
  }

  predicate ByBucket(a: (int, nat), b: (int, nat)) {
    a.0 < b.0
  }

  /** One item per bucket, in ascending order. */
  ghost predicate Ascending(items: seq<(int, nat)>) {
    forall i, j | 0 <= i < j < |items| :: items[i].0 < items[j].0
  }

  /** Items with the buckets of a log, each with the whole count of its bucket. */
  ghost predicate StandsFor(items: seq<(int, nat)>, log: seq<(int, nat)>) {
    && (forall b :: b in Buckets(items) <==> b in Buckets(log))
    && (forall b :: Weight(items, b) == Weight(log, b))
  }

  lemma EmptyTogether(items: seq<(int, nat)>, log: seq<(int, nat)>)
    ensures StandsFor(items, log) ==> (items == [] <==> log == [])
  {
    if items != [] { assert Buckets(items)[0] in Buckets(items); }
    if log != [] { assert Buckets(log)[0] in Buckets(log); }
  }

  lemma {:induction false} WeightInsert(x: (int, nat), items: seq<(int, nat)>, b: int)
    ensures Weight(InsertBy(ByBucket, x, items), b) == Weight(items, b) + if x.0 == b then x.1 else 0
  {
    assert [x][..0] == [];
    if items == [] || ByBucket(x, items[0]) {
      WeightConcat([x], items, b);
    } else {
      var rest := InsertBy(ByBucket, x, items[1..]);
      WeightInsert(x, items[1..], b);
      WeightConcat([items[0]], rest, b);
      WeightConcat([items[0]], items[1..], b);
      assert items == [items[0]] + items[1..];
    }
  }

  lemma BucketMembers(items: seq<(int, nat)>, b: int)
    ensures b in Buckets(items) <==> exists x :: x in items && x.0 == b
  {
    if b in Buckets(items) {
      var i :| 0 <= i < |items| && Buckets(items)[i] == b;
      assert items[i] in items;
    }
    if x :| x in items && x.0 == b {
      var i :| 0 <= i < |items| && items[i] == x;
      assert Buckets(items)[i] == b;
    }
  }

  lemma BucketsInsert(x: (int, nat), items: seq<(int, nat)>, b: int)
    ensures b in Buckets(InsertBy(ByBucket, x, items)) <==> b == x.0 || b in Buckets(items)
  {
    var more := InsertBy(ByBucket, x, items);
    BucketMembers(more, b);
    BucketMembers(items, b);
    forall y ensures y in more <==> y == x || y in items { InsertMembers(ByBucket, x, items, y); }
  }

  lemma {:induction false} InsertAscends(x: (int, nat), items: seq<(int, nat)>)
    requires Ascending(items) && x.0 !in Buckets(items)
    ensures Ascending(InsertBy(ByBucket, x, items))
  {
    if items != [] {
      var first, tail := items[0], items[1..];
      assert Buckets(items)[0] == first.0;
      if !ByBucket(x, first) {
        assert forall i | 0 <= i < |tail| :: tail[i] == items[i + 1] && Buckets(tail)[i] == Buckets(items)[i + 1];
        InsertAscends(x, tail);
        var rest := InsertBy(ByBucket, x, tail);
        forall y | y in rest ensures first.0 < y.0 { InsertMembers(ByBucket, x, tail, y); }
        assert forall i | 0 <= i < |rest| :: rest[i] in rest;
      }
    }
  }

  /** Sorting items with distinct buckets puts them in ascending order and changes nothing else. */
  lemma {:induction false} SortedItems(items: seq<(int, nat)>)
    requires forall i, j | 0 <= i < j < |items| :: Buckets(items)[i] != Buckets(items)[j]
    ensures Ascending(SortBy(ByBucket, items)) && StandsFor(SortBy(ByBucket, items), items)
  {
    if items != [] {
      var init, last := items[..|items| - 1], items[|items| - 1];
      assert items == init + [last] && Buckets(items) == Buckets(init) + [last.0];
      assert forall i | 0 <= i < |init| :: Buckets(init)[i] == Buckets(items)[i];
      SortedItems(init);
      var sorted := SortBy(ByBucket, init);
      InsertAscends(last, sorted);
      OneMoreCount(init, last.0, last.1);
      assert SortBy(ByBucket, items) == InsertBy(ByBucket, last, sorted);
      hide SortBy, InsertBy, Weight, Buckets;
      forall b ensures b in Buckets(InsertBy(ByBucket, last, sorted)) <==> b in Buckets(items) {
        BucketsInsert(last, sorted, b);
      }
      forall b ensures Weight(InsertBy(ByBucket, last, sorted), b) == Weight(items, b) {
        WeightInsert(last, sorted, b);
      }
    }
  }

  class Table {
    // The insertion-ordered dictionary: its keys in order, and its values.
    var order: seq<int>
    var counts: map<int, nat>
    var complete: bool
    ghost var log: seq<(int, nat)>

    /** Kept buckets carry their exact weight, and `complete` says whether any count was dropped. */
    ghost predicate Valid()
      reads this
    {
      && order == Tracked(Buckets(log), MAX_MINUTE_BUCKETS)
      && (forall b :: b in counts <==> b in order)
      && (forall b | b in order :: counts[b] == Weight(log, b))
      && (complete <==> Fits(log))
    }

    constructor ()
      ensures Valid() && log == []
    {
      order, counts, complete, log := [], map[], true, [];
    }

    method Add(bucket: int, count: nat)
      requires Valid()
      modifies this
      ensures Valid() && log == old(log) + [(bucket, count)]
    {
      hide Weight, Fits, Tracked, Buckets;
      ghost var after := log + [(bucket, count)];
      OneMoreCount(log, bucket, count);
      TrackedGrows(Buckets(log), bucket, MAX_MINUTE_BUCKETS);
      FitsStep(log, bucket, count);
      if bucket !in Buckets(log) { NoWeight(log, bucket); }
      assert Buckets(after) == Buckets(log) + [bucket];
      if bucket in counts {
        counts := counts[bucket := counts[bucket] + count];
      } else if |order| < MAX_MINUTE_BUCKETS {
        counts := counts[bucket := count];
        order := order + [bucket];
      } else {
        complete := false;
      }
      log := after;
    }

    /** The table's items in dictionary order. */
    method Unsorted() returns (items: seq<(int, nat)>)
      requires Valid()
      ensures Buckets(items) == order && forall i, j | 0 <= i < j < |order| :: order[i] != order[j]
      ensures complete ==> forall b :: b in Buckets(items) <==> b in Buckets(log)
      ensures complete ==> forall b :: Weight(items, b) == Weight(log, b)
    {
      items := [];
      OrderIsDistinct();
      if complete { KeptIsAll(); }
      hide Weight, Tracked, DistinctOf, Fits;
      for i := 0 to |order|
        invariant Buckets(items) == order[..i]
        invariant forall b :: Weight(items, b) == if b in order[..i] then Weight(log, b) else 0
      {
        var b := order[i];
        OneMoreCount(items, b, counts[b]);
        assert order[..i + 1] == order[..i] + [b];
        items := items + [(b, counts[b])];
      }
      assert order[..|order|] == order;
      if complete {
        forall b ensures Weight(items, b) == Weight(log, b) {
          if b !in order { NoWeight(log, b); }
        }
      }
    }

    /** `tuple(sorted(minute_counts.items()))`. */
    method Items() returns (items: seq<(int, nat)>)
      requires Valid()
      ensures Ascending(items) && forall b :: b in Buckets(items) <==> b in order
      ensures complete ==> StandsFor(items, log)
    {
      items := Unsorted();
      SortedItems(items);
      items := SortBy(ByBucket, items);
    }

    lemma KeptIsAll()
      requires Valid() && complete
      ensures forall b :: b in order <==> b in Buckets(log)
    {
      DistinctMembers(Buckets(log));
    }

    lemma OrderIsDistinct()
      requires Valid()
      ensures forall i, j | 0 <= i < j < |order| :: order[i] != order[j]
    {
      TrackedMembers(Buckets(log), MAX_MINUTE_BUCKETS);
    }

    /** A complete table holds every bucket with its exact weight. */
    lemma CompleteIsExact(b: int)
      requires Valid() && complete
      ensures (if b in counts then counts[b] else 0) == Weight(log, b)
    {
      DistinctMembers(Buckets(log));
      if b !in counts { NoWeight(log, b); }
    }
  }

  lemma {:induction false} WeightConcat(a: seq<(int, nat)>, b: seq<(int, nat)>, bucket: int)
    ensures Weight(a + b, bucket) == Weight(a, bucket) + Weight(b, bucket)
    decreases |b|
  {
    if b == [] {
      assert a + b == a;
    } else {
      assert (a + b)[..|a + b| - 1] == a + b[..|b| - 1];
      WeightConcat(a, b[..|b| - 1], bucket);
    }
  }

  lemma BucketsConcat(a: seq<(int, nat)>, b: seq<(int, nat)>)
    ensures Buckets(a + b) == Buckets(a) + Buckets(b)
  {}
}
