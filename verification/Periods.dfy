/** The two halves of a minute histogram's time range, and its busiest minute. */
module Periods {
  import opened Basics
  import opened Counting
  import opened Histogram

  /** One item per bucket, in any order. */
  ghost predicate OneEach(items: seq<(int, nat)>) {
    forall i, j | 0 <= i < j < |items| :: items[i].0 != items[j].0
  }

  datatype Periods = Periods(earlier: nat, later: nat, peak: nat)

  /** At or before the midpoint, whose double is given, or after it. */
  predicate InPeriod(bucket: int, twiceMidpoint: int, early: bool) {
    (2 * bucket <= twiceMidpoint) == early
  }

  /** What was counted in one half. */
  function Counted(log: seq<(int, nat)>, twiceMidpoint: int, early: bool): nat {
    if log == [] then 0 else
      var last := log[|log| - 1];
      Counted(log[..|log| - 1], twiceMidpoint, early) + if InPeriod(last.0, twiceMidpoint, early) then last.1 else 0
  }

  ghost predicate IsRange(lo: int, hi: int, buckets: seq<int>) {
    lo in buckets && hi in buckets && forall b | b in buckets :: lo <= b <= hi
  }

  /**
   * The halves are split at the midpoint of the first and the last minute; the peak is the largest count of a minute.
   */
  ghost predicate PeriodsAre(r: Periods, log: seq<(int, nat)>) {
    && (exists lo, hi :: IsRange(lo, hi, Buckets(log))
          && r.earlier == Counted(log, lo + hi, true) && r.later == Counted(log, lo + hi, false))
    && (exists b :: b in Buckets(log) && Weight(log, b) == r.peak)
    && forall b | b in Buckets(log) :: Weight(log, b) <= r.peak
  }

  lemma CountedSnoc(log: seq<(int, nat)>, item: (int, nat), twiceMidpoint: int, early: bool)
    ensures Counted(log + [item], twiceMidpoint, early) ==
      Counted(log, twiceMidpoint, early) + if InPeriod(item.0, twiceMidpoint, early) then item.1 else 0
  {
    assert (log + [item])[..|log|] == log;
  }

  /** Each half, summed minute by minute. */
  function Spread(keys: seq<int>, log: seq<(int, nat)>, twiceMidpoint: int, early: bool): nat {
    if keys == [] then 0 else
      var last := keys[|keys| - 1];
      Spread(keys[..|keys| - 1], log, twiceMidpoint, early)
      + if InPeriod(last, twiceMidpoint, early) then Weight(log, last) else 0
  }

  lemma {:induction false} SpreadOfNothing(keys: seq<int>, twiceMidpoint: int, early: bool)
    ensures Spread(keys, [], twiceMidpoint, early) == 0
  {
    if keys != [] { SpreadOfNothing(keys[..|keys| - 1], twiceMidpoint, early); }
  }

  lemma {:induction false} SpreadStep(keys: seq<int>, log: seq<(int, nat)>, item: (int, nat), twiceMidpoint: int,
                                      early: bool)
    requires forall i, j | 0 <= i < j < |keys| :: keys[i] != keys[j]
    ensures Spread(keys, log + [item], twiceMidpoint, early) == Spread(keys, log, twiceMidpoint, early)
      + if item.0 in keys && InPeriod(item.0, twiceMidpoint, early) then item.1 else 0
  {
    if keys != [] {
      var init, last := keys[..|keys| - 1], keys[|keys| - 1];
      SpreadStep(init, log, item, twiceMidpoint, early);
      OneMoreCount(log, item.0, item.1);
      assert log + [(item.0, item.1)] == log + [item];
      assert keys == init + [last];
      hide Weight, InPeriod;
    }
  }

  lemma {:induction false} SpreadIsCounted(keys: seq<int>, log: seq<(int, nat)>, twiceMidpoint: int, early: bool)
    requires forall i, j | 0 <= i < j < |keys| :: keys[i] != keys[j]
    requires forall b | b in Buckets(log) :: b in keys
    ensures Spread(keys, log, twiceMidpoint, early) == Counted(log, twiceMidpoint, early)
  {
    if log == [] {
      SpreadOfNothing(keys, twiceMidpoint, early);
    } else {
      var init, last := log[..|log| - 1], log[|log| - 1];
      assert log == init + [last];
      OneMoreCount(init, last.0, last.1);
      assert init + [(last.0, last.1)] == log;
      hide Spread, Weight;
      SpreadIsCounted(keys, init, twiceMidpoint, early);
      SpreadStep(keys, init, last, twiceMidpoint, early);
      assert last.0 in Buckets(log) by { assert Buckets(log)[|init|] == last.0; }
    }
  }

  lemma {:induction false} SpreadSame(keys: seq<int>, a: seq<(int, nat)>, b: seq<(int, nat)>, twiceMidpoint: int,
                                      early: bool)
    requires forall k :: Weight(a, k) == Weight(b, k)
    ensures Spread(keys, a, twiceMidpoint, early) == Spread(keys, b, twiceMidpoint, early)
  {
    if keys != [] { SpreadSame(keys[..|keys| - 1], a, b, twiceMidpoint, early); }
  }

  /** Items that stand for a log have the log's halves and peak. */
  lemma PeriodsOfItems(r: Periods, items: seq<(int, nat)>, log: seq<(int, nat)>)
    requires PeriodsAre(r, items)
    requires OneEach(items) && StandsFor(items, log)
    ensures PeriodsAre(r, log)
  {
    var keys := Buckets(items);
    hide Counted, Weight, Spread;
    var lo, hi :| IsRange(lo, hi, keys) && r.earlier == Counted(items, lo + hi, true) &&
      r.later == Counted(items, lo + hi, false);
    assert IsRange(lo, hi, Buckets(log));
    SameHalf(keys, items, log, lo + hi, true);
    SameHalf(keys, items, log, lo + hi, false);
    var b :| b in keys && Weight(items, b) == r.peak;
    assert b in Buckets(log) && Weight(log, b) == r.peak;
  }

  lemma SameHalf(keys: seq<int>, items: seq<(int, nat)>, log: seq<(int, nat)>, twiceMidpoint: int, early: bool)
    requires forall i, j | 0 <= i < j < |keys| :: keys[i] != keys[j]
    requires (forall b | b in Buckets(items) :: b in keys) && (forall b | b in Buckets(log) :: b in keys)
    requires forall k :: Weight(items, k) == Weight(log, k)
    ensures Counted(items, twiceMidpoint, early) == Counted(log, twiceMidpoint, early)
  {
    hide Weight, Spread, Counted;
    SpreadIsCounted(keys, items, twiceMidpoint, early);
    SpreadIsCounted(keys, log, twiceMidpoint, early);
    SpreadSame(keys, items, log, twiceMidpoint, early);
  }

  /** The two halves of a log of single messages are all of them. */
  lemma {:induction false} HalvesAddUp(log: seq<(int, nat)>, twiceMidpoint: int)
    requires forall x | x in log :: x.1 == 1
    ensures Counted(log, twiceMidpoint, true) + Counted(log, twiceMidpoint, false) == |log|
  {
    if log != [] {
      assert log[|log| - 1] in log;
      HalvesAddUp(log[..|log| - 1], twiceMidpoint);
    }
  }

  /** The messages that are no further from the first minute than from the last. */
  ghost function NearStart(lo: int, hi: int): ((int, nat)) -> bool {
    (message: (int, nat)) => message.0 - lo <= hi - message.0
  }

  /** The earlier half of a log of single messages is the number of these. */
  lemma {:induction false} EarlierHalf(log: seq<(int, nat)>, lo: int, hi: int) returns (part: seq<(int, nat)>)
    requires forall x | x in log :: x.1 == 1
    ensures Filters(part, log, NearStart(lo, hi)) && |part| == Counted(log, lo + hi, true)
  {
    if log == [] {
      FiltersNothing(NearStart(lo, hi));
      part := [];
    } else {
      var init, last := log[..|log| - 1], log[|log| - 1];
      assert log == init + [last] && last in log;
      part := EarlierHalf(init, lo, hi);
      FiltersSnoc(part, init, NearStart(lo, hi), last);
      CountedSnoc(init, last, lo + hi, true);
      hide Filters, Counted;
      part := part + if NearStart(lo, hi)(last) then [last] else [];
    }
  }

  /** The weight of a minute is the number of its messages. */
  lemma {:induction false} WeightCounts(log: seq<(int, nat)>, bucket: int)
    requires forall x | x in log :: x.1 == 1
    ensures Weight(log, bucket) == multiset(Buckets(log))[bucket]
  {
    if log != [] {
      var init, last := log[..|log| - 1], log[|log| - 1];
      assert last in log;
      WeightCounts(init, bucket);
      assert Buckets(log) == Buckets(init) + [last.0];
    }
  }

  /** With distinct buckets, a bucket's weight is its one count. */
  lemma {:induction false} ItemWeight(items: seq<(int, nat)>, i: nat)
    requires i < |items| && OneEach(items)
    ensures Weight(items, items[i].0) == items[i].1
    decreases |items|
  {
    var init, last := items[..|items| - 1], items[|items| - 1];
    if i == |items| - 1 {
      assert last.0 !in Buckets(init);
      NoWeight(init, last.0);
    } else {
      ItemWeight(init, i);
    }
  }

  /** The first and the last minute and the largest count, in one pass over the items. */
  method Range(items: seq<(int, nat)>) returns (lo: int, hi: int, peak: nat)
    requires items != [] && OneEach(items)
    ensures IsRange(lo, hi, Buckets(items))
    ensures (exists b :: b in Buckets(items) && Weight(items, b) == peak)
    ensures forall b | b in Buckets(items) :: Weight(items, b) <= peak
  {
    lo, hi, peak := items[0].0, items[0].0, items[0].1;
    ItemWeight(items, 0);
    assert Buckets(items)[0] == items[0].0;
    hide Weight;
    for i := 0 to |items|
      invariant lo in Buckets(items) && hi in Buckets(items)
      invariant exists b :: b in Buckets(items) && Weight(items, b) == peak
      invariant forall j | 0 <= j < i :: lo <= items[j].0 <= hi && Weight(items, items[j].0) <= peak
    {
      ItemWeight(items, i);
      assert Buckets(items)[i] == items[i].0;
      if items[i].0 < lo { lo := items[i].0; }
      if items[i].0 > hi { hi := items[i].0; }
      if items[i].1 > peak { peak := items[i].1; }
    }
  }

  /** The two sums over the items. */
  method Halves(items: seq<(int, nat)>, twiceMidpoint: int) returns (earlier: nat, later: nat)
    ensures earlier == Counted(items, twiceMidpoint, true) && later == Counted(items, twiceMidpoint, false)
  {
    hide Counted;
    earlier, later := 0, 0;
    NothingCounted(twiceMidpoint);
    for i := 0 to |items|
      invariant earlier == Counted(items[..i], twiceMidpoint, true) &&
        later == Counted(items[..i], twiceMidpoint, false)
    {
      assert items[..i + 1] == items[..i] + [items[i]];
      CountedSnoc(items[..i], items[i], twiceMidpoint, true);
      CountedSnoc(items[..i], items[i], twiceMidpoint, false);
      if 2 * items[i].0 <= twiceMidpoint { earlier := earlier + items[i].1; } else { later := later + items[i].1; }
    }
    assert items[..|items|] == items;
  }

  lemma NothingCounted(twiceMidpoint: int)
    ensures Counted([], twiceMidpoint, true) == Counted([], twiceMidpoint, false) == 0
  {}

  /** The halves and the peak, from the items of the table. */
  method Summarize(items: seq<(int, nat)>) returns (r: Periods)
    requires items != [] && OneEach(items)
    ensures PeriodsAre(r, items)
  {
    hide Weight, Counted;
    var lo, hi, peak := Range(items);
    var earlier, later := Halves(items, lo + hi);
    r := Periods(earlier, later, peak);
  }
}
