/** LogHound's `analyze_sources`: one pattern store shared by a log and its rotations. */
module LogSources {
  import opened Basics
  import opened LogLines
  import opened LineMetrics
  import opened PatternStore
  import opened LogReader
  import opened Counting
  import Histogram
  import Periods

  /** One path, as `open_target` found it; `identity` is its (st_dev, st_ino). */
  datatype Candidate =
    | CannotOpen
    | Opened(identity: (int, int), content: Bytes, disk: nat -> Read, lens: Lens)

  /** A source that contributed: the lines recorded from it and the text functions used on them. */
  datatype Part = Part(lens: Lens, lines: seq<Line>)

  function TotalLines(parts: seq<Part>): nat {
    if parts == [] then 0 else TotalLines(parts[..|parts| - 1]) + |parts[|parts| - 1].lines|
  }

  /** The pattern store calls of all parts, each numbered after the lines of the parts before it. */
  function AllCalls(parts: seq<Part>): seq<Added> {
    if parts == [] then [] else
      var init := parts[..|parts| - 1];
      var last := parts[|parts| - 1];
      AllCalls(init) + Calls(last.lens, last.lines, TotalLines(init))
  }

  /** What the lines of each part come to, one after the other. */
  function All<T>(parts: seq<Part>, of: Part -> seq<T>): seq<T> {
    if parts == [] then [] else All(parts[..|parts| - 1], of) + of(parts[|parts| - 1])
  }

  function MinutesOf(p: Part): seq<(int, nat)> { Minutes(p.lens, p.lines) }

  function StampsOf(p: Part): seq<(int, bool)> { Stamps(p.lens, p.lines) }

  function SeveritiesOf(p: Part): seq<Severity> { Severities(p.lens, p.lines) }

  function FatesOf(p: Part): seq<Fate> { Fates(p.lens, p.lines) }

  lemma OneMorePart(parts: seq<Part>, p: Part)
    ensures TotalLines(parts + [p]) == TotalLines(parts) + |p.lines|
    ensures AllCalls(parts + [p]) == AllCalls(parts) + Calls(p.lens, p.lines, TotalLines(parts))
  {
    assert (parts + [p])[..|parts|] == parts;
  }

  lemma AllStep<T>(parts: seq<Part>, i: nat, of: Part -> seq<T>)
    requires i < |parts|
    ensures All(parts[..i + 1], of) == All(parts[..i], of) + of(parts[i])
    ensures All(parts[..0], of) == []
  {
    assert parts[..i + 1][..i] == parts[..i];
  }

  // ----- which sources are read

  /** The opened candidates whose file was not opened under an earlier name. */
  ghost function Sources(candidates: seq<Candidate>): seq<Candidate> {
    if candidates == [] then [] else
      var init := Sources(candidates[..|candidates| - 1]);
      var last := candidates[|candidates| - 1];
      if last.CannotOpen? || last.identity in Identities(init) then init else init + [last]
  }

  ghost function Identities(candidates: seq<Candidate>): set<(int, int)> {
    set c | c in candidates && c.Opened? :: c.identity
  }

  lemma {:induction false} SourcesAreOpened(candidates: seq<Candidate>)
    ensures forall c | c in Sources(candidates) :: c.Opened? && c in candidates
  {
    if candidates != [] {
      SourcesAreOpened(candidates[..|candidates| - 1]);
      assert candidates == candidates[..|candidates| - 1] + [candidates[|candidates| - 1]];
    }
  }

  /** Opened, and no earlier candidate was opened on the same file. */
  ghost predicate OpenedFirst(candidates: seq<Candidate>, i: int) {
    && 0 <= i < |candidates| && candidates[i].Opened?
    && forall j | 0 <= j < i && candidates[j].Opened? :: candidates[j].identity != candidates[i].identity
  }

  /** `at` are the positions of such candidates, in order. */
  ghost predicate OpenedAt(at: seq<int>, candidates: seq<Candidate>) {
    && (forall i :: i in at <==> OpenedFirst(candidates, i))
    && forall j, k | 0 <= j < k < |at| :: at[j] < at[k]
  }

  /** The sources are these candidates. */
  ghost predicate AreAt(sources: seq<Candidate>, at: seq<int>, candidates: seq<Candidate>) {
    |sources| == |at| && forall k | 0 <= k < |at| :: 0 <= at[k] < |candidates| && sources[k] == candidates[at[k]]
  }

  lemma {:induction false} SourcesAt(candidates: seq<Candidate>) returns (at: seq<int>)
    ensures OpenedAt(at, candidates) && AreAt(Sources(candidates), at, candidates)
    ensures Identities(Sources(candidates)) == Identities(candidates)
  {
    if candidates == [] {
      at := [];
    } else {
      var n := |candidates| - 1;
      var init, last := candidates[..n], candidates[n];
      assert candidates == init + [last];
      at := SourcesAt(init);
      SourcesStep(at, init, last);
      hide *;
      if last.Opened? && last.identity !in Identities(init) { at := at + [n]; }
    }
  }

  lemma SourcesStep(at: seq<int>, init: seq<Candidate>, last: Candidate)
    requires OpenedAt(at, init) && AreAt(Sources(init), at, init)
    requires Identities(Sources(init)) == Identities(init)
    ensures
      var candidates, added := init + [last], last.Opened? && last.identity !in Identities(init);
      var more := if added then at + [|init|] else at;
      && OpenedAt(more, candidates) && AreAt(Sources(candidates), more, candidates)
      && Identities(Sources(candidates)) == Identities(candidates)
  {
    var added := last.Opened? && last.identity !in Identities(init);
    SourcesSnoc(init, last);
    OpenedSnoc(at, init, last, added);
    AreAtSnoc(Sources(init), at, init, last, added);
    if last.Opened? {
      IdentitiesGrow(init, last);
      IdentitiesGrow(Sources(init), last);
    } else {
      NoIdentity(init, last);
    }
    hide *;
  }

  lemma SourcesSnoc(init: seq<Candidate>, last: Candidate)
    ensures Sources(init + [last]) ==
      if last.Opened? && last.identity !in Identities(Sources(init)) then Sources(init) + [last] else Sources(init)
  {
    assert (init + [last])[..|init|] == init;
  }

  lemma NoIdentity(init: seq<Candidate>, last: Candidate)
    requires last.CannotOpen?
    ensures Identities(init + [last]) == Identities(init)
  {
    forall i | i in Identities(init) ensures i in Identities(init + [last]) {
      var c :| c in init && c.Opened? && c.identity == i;
      assert c in init + [last];
    }
  }

  lemma AreAtSnoc(sources: seq<Candidate>, at: seq<int>, init: seq<Candidate>, last: Candidate, added: bool)
    requires AreAt(sources, at, init)
    ensures AreAt(if added then sources + [last] else sources, if added then at + [|init|] else at, init + [last])
  {}

  lemma OpenedSnoc(at: seq<int>, init: seq<Candidate>, last: Candidate, added: bool)
    requires OpenedAt(at, init) && added == (last.Opened? && last.identity !in Identities(init))
    ensures OpenedAt(if added then at + [|init|] else at, init + [last])
  {
    var more := if added then at + [|init|] else at;
    forall i ensures i in more <==> OpenedFirst(init + [last], i) {
      if i == |init| { LastOpened(init, last); } else { EarlierOpened(init, last, i); }
      assert |init| in at <==> OpenedFirst(init, |init|);
    }
    assert forall k | 0 <= k < |at| :: at[k] in at;
  }

  lemma EarlierOpened(init: seq<Candidate>, last: Candidate, i: int)
    requires i != |init|
    ensures OpenedFirst(init + [last], i) <==> OpenedFirst(init, i)
  {
    var more := init + [last];
    assert forall j | 0 <= j < |init| :: more[j] == init[j];
  }

  lemma LastOpened(init: seq<Candidate>, last: Candidate)
    ensures OpenedFirst(init + [last], |init|) <==> last.Opened? && last.identity !in Identities(init)
  {
    var more := init + [last];
    assert forall j | 0 <= j < |init| :: more[j] == init[j];
    if last.Opened? && last.identity in Identities(init) {
      var c :| c in init && c.Opened? && c.identity == last.identity;
      var j :| 0 <= j < |init| && init[j] == c;
      assert more[j] == c;
    }
  }

  ghost function MeaningOfSource(c: Candidate): Meaning
    requires c.Opened?
  {
    MeaningOf(c.content, c.disk, c.lens)
  }

  /** The parts the sources contribute, in order; a rejected or unanalyzable rotation contributes nothing. */
  ghost function PartsFrom(sources: seq<Candidate>): seq<Part>
    requires forall c | c in sources :: c.Opened?
  {
    if sources == [] then [] else Contribute(PartsFrom(sources[..|sources| - 1]), sources[|sources| - 1])
  }

  ghost function Contribute(parts: seq<Part>, source: Candidate): seq<Part>
    requires source.Opened?
  {
    match MeaningOfSource(source)
    case Lines(lines) => parts + [Part(source.lens, lines)]
    case _ => parts
  }

  lemma PartsStep(sources: seq<Candidate>, i: nat)
    requires i < |sources| && forall c | c in sources :: c.Opened?
    ensures PartsFrom(sources[..i + 1]) == Contribute(PartsFrom(sources[..i]), sources[i])
  {
    assert sources[..i + 1][..i] == sources[..i];
  }

  datatype Analysis = Observations(observations: seq<Observation>) | Failed

  /** The first loop of `analyze_sources`: every source is opened before any is read. */
  method OpenAll(candidates: seq<Candidate>) returns (sources: seq<Candidate>, failed: bool)
    requires candidates != []
    ensures failed == candidates[0].CannotOpen?
    ensures !failed ==> sources == Sources(candidates) && sources != [] && sources[0] == candidates[0]
    ensures !failed ==> forall c | c in sources :: c.Opened?
  {
    sources := [];
    var seen: set<(int, int)> := {};
    for i := 0 to |candidates|
      invariant sources == Sources(candidates[..i]) && seen == Identities(sources)
      invariant i > 0 ==> candidates[0].Opened? && sources != [] && sources[0] == candidates[0]
    {
      assert candidates[..i + 1][..i] == candidates[..i];
      var candidate := candidates[i];
      if candidate.CannotOpen? {
        if i == 0 { return [], true; }
        continue;
      }
      if candidate.identity in seen { continue; }
      IdentitiesGrow(sources, candidate);
      seen := seen + {candidate.identity};
      sources := sources + [candidate];
    }
    assert candidates[..|candidates|] == candidates;
    SourcesAreOpened(candidates);
    return sources, false;
  }

  lemma IdentitiesGrow(cs: seq<Candidate>, c: Candidate)
    requires c.Opened?
    ensures Identities(cs + [c]) == Identities(cs) + {c.identity}
  {
    forall i | i in Identities(cs) + {c.identity} ensures i in Identities(cs + [c]) {
      if i == c.identity { assert c in cs + [c]; } else {
        var x :| x in cs && x.Opened? && x.identity == i;
        assert x in cs + [c];
      }
    }
  }

  /** Observations and parts say the same about every contributing source. */
  ghost predicate Describe(observations: seq<Observation>, parts: seq<Part>) {
    && |observations| == |parts|
    && forall i | 0 <= i < |parts| ::
         observations[i].Observed? && Reports(observations[i], parts[i].lens, parts[i].lines)
         && observations[i].counters.physical == |parts[i].lines|
  }

  /** One iteration of the second loop. */
  method AnalyzeOne(source: Candidate, store: Store, offset: nat, ghost parts: seq<Part>)
    returns (o: Observation, ghost next: seq<Part>)
    requires source.Opened? && store.Valid() && store.added == AllCalls(parts) && offset == TotalLines(parts)
    modifies store
    ensures store.Valid() && store.added == AllCalls(next) && next == Contribute(parts, source)
    ensures o.Observed? <==> MeaningOfSource(source).Lines?
    ensures !o.Observed? ==> next == parts
    ensures o.Observed? ==> next == parts + [next[|parts|]] && offset + o.counters.physical == TotalLines(next)
    ensures o.Observed? ==> Reports(o, next[|parts|].lens, next[|parts|].lines)
  {
    hide Reports, MeaningOf, LinesRead, Store.Valid, Reach, AllCalls, Calls;
    next := parts;
    o := Observe(source.content, source.disk, source.lens, store, offset);
    if o.Observed? {
      ghost var part := Part(source.lens, LinesRead(source.content, Reach(source.content, source.disk, 0)));
      OneMorePart(parts, part);
      PhysicalLines(o, part);
      next := parts + [part];
    }
  }

  /**
   * The loops of `analyze_sources` over the sources: the shared store receives the analyzed lines of the contributing
   * sources, one after the other with consecutive numbers, and nothing of any other source.
   */
  method ReadSources(candidates: seq<Candidate>, store: Store) returns (r: Analysis, ghost parts: seq<Part>)
    requires candidates != [] && store.Valid() && store.added == []
    modifies store
    ensures store.Valid()
    ensures r.Failed? <==> candidates[0].CannotOpen? || !MeaningOfSource(candidates[0]).Lines?
    ensures r.Observations? ==>
      (forall c | c in Sources(candidates) :: c.Opened?) && parts == PartsFrom(Sources(candidates))
    ensures r.Observations? ==> store.added == AllCalls(parts) && Describe(r.observations, parts)
  {
    hide Reports, MeaningOf, Store.Valid, Reach, AllCalls, Calls, Sources, MeaningOfSource, Contribute, PartsFrom,
         TotalLines, Describe;
    parts := [];
    var sources, failed := OpenAll(candidates);
    if failed { return Failed, parts; }
    var observations: seq<Observation> := [];
    var offset := 0;
    NoParts();
    for i := 0 to |sources|
      invariant store.Valid() && parts == PartsFrom(sources[..i])
      invariant store.added == AllCalls(parts) && offset == TotalLines(parts) && Describe(observations, parts)
      invariant i > 0 ==> MeaningOfSource(sources[0]).Lines?
    {
      PartsStep(sources, i);
      var o;
      ghost var before := parts;
      o, parts := AnalyzeOne(sources[i], store, offset, parts);
      if !o.Observed? {
        if i == 0 { return Failed, parts; }
        continue;
      }
      DescribeOneMore(observations, before, o, parts[|before|]);
      observations := observations + [o];
      offset := offset + o.counters.physical;
    }
    assert sources[..|sources|] == sources;
    return Observations(observations), parts;
  }

  lemma NoParts()
    ensures AllCalls([]) == [] && PartsFrom([]) == [] && TotalLines([]) == 0 && Describe([], [])
  {}

  lemma DescribeOneMore(observations: seq<Observation>, parts: seq<Part>, o: Observation, p: Part)
    requires Describe(observations, parts) && o.Observed? && Reports(o, p.lens, p.lines)
    ensures Describe(observations + [o], parts + [p])
  {}

  lemma PhysicalLines(r: Observation, part: Part)
    requires r.Observed? && Reports(r, part.lens, part.lines)
    ensures r.counters.physical == |part.lines|
  {}

  // ----- merging the minute histograms

  ghost predicate AllComplete(observations: seq<Observation>) {
    forall o | o in observations :: o.Observed? && o.minutesComplete
  }

  /** The concatenated items the merge loop adds. */
  function AllItems(observations: seq<Observation>): seq<(int, nat)>
    requires forall o | o in observations :: o.Observed?
  {
    if observations == [] then []
    else AllItems(observations[..|observations| - 1]) + observations[|observations| - 1].minutes
  }

  method AddItems(table: Histogram.Table, items: seq<(int, nat)>)
    requires table.Valid()
    modifies table
    ensures table.Valid() && table.log == old(table.log) + items
  {
    for i := 0 to |items|
      invariant table.Valid() && table.log == old(table.log) + items[..i]
    {
      assert items[..i + 1] == items[..i] + [items[i]];
      table.Add(items[i].0, items[i].1);
    }
    assert items[..|items|] == items;
  }

  /** The merge loop. */
  method AddAll(observations: seq<Observation>) returns (table: Histogram.Table, all: bool)
    requires forall o | o in observations :: o.Observed?
    ensures fresh(table) && table.Valid() && table.log == AllItems(observations)
    ensures all <==> AllComplete(observations)
  {
    hide Histogram.Table.Valid;
    table := new Histogram.Table();
    all := true;
    for i := 0 to |observations|
      invariant fresh(table) && table.Valid()
      invariant all <==> forall o | o in observations[..i] :: o.minutesComplete
      invariant table.log == AllItems(observations[..i])
    {
      assert observations[..i + 1] == observations[..i] + [observations[i]];
      assert observations[..i + 1][..i] == observations[..i];
      AddItems(table, observations[i].minutes);
      all := all && observations[i].minutesComplete;
    }
    assert observations[..|observations|] == observations;
  }

  /**
   * The merged histogram is complete exactly when the minutes of all sources fit, and then it is exact; so are the
   * halves and the peak, which are left out when it is not complete or empty.
   */
  method MergeMinutes(observations: seq<Observation>, ghost parts: seq<Part>)
    returns (items: seq<(int, nat)>, complete: bool, periods: Option<Periods.Periods>)
    requires Describe(observations, parts)
    ensures complete <==> Histogram.Fits(All(parts, MinutesOf))
    ensures Histogram.Ascending(items) && (complete ==> Histogram.StandsFor(items, All(parts, MinutesOf)))
    ensures periods.Some? <==> complete && All(parts, MinutesOf) != []
    ensures periods.Some? ==> Periods.PeriodsAre(periods.value, All(parts, MinutesOf))
  {
    hide AllItems, AllComplete, Histogram.Weight, Histogram.Fits, DistinctOf, Periods.PeriodsAre;
    DescribedAreObserved(observations, parts);
    var table, all := AddAll(observations);
    complete := all && table.complete;
    if all { ItemsStandForMinutes(observations, parts); }
    CompleteTogether(observations, parts);
    items := table.Items();
    periods := SummarizeIf(items, complete, All(parts, MinutesOf));
  }

  /** When the minutes of all sources fit, so do those of each. */
  lemma CompleteTogether(observations: seq<Observation>, parts: seq<Part>)
    requires Describe(observations, parts)
    ensures Histogram.Fits(All(parts, MinutesOf)) ==> AllComplete(observations)
  {
    hide Reports, Histogram.Fits;
    if Histogram.Fits(All(parts, MinutesOf)) {
      forall o | o in observations ensures o.Observed? && o.minutesComplete {
        var i :| 0 <= i < |observations| && observations[i] == o;
        PartFits(parts, i);
        Described(o, parts[i]);
      }
    }
  }

  lemma PartFits(parts: seq<Part>, i: nat)
    requires i < |parts| && Histogram.Fits(All(parts, MinutesOf))
    ensures Histogram.Fits(MinutesOf(parts[i]))
  {
    hide DistinctOf, MinutesOf;
    PartIsPart(parts, i);
    DistinctOfPart(Histogram.Buckets(MinutesOf(parts[i])), Histogram.Buckets(All(parts, MinutesOf)));
  }

  lemma {:induction false} PartIsPart(parts: seq<Part>, i: nat)
    requires i < |parts|
    ensures forall b | b in Histogram.Buckets(MinutesOf(parts[i])) :: b in Histogram.Buckets(All(parts, MinutesOf))
    decreases |parts|
  {
    hide MinutesOf;
    var init, last := parts[..|parts| - 1], parts[|parts| - 1];
    Histogram.BucketsConcat(All(init, MinutesOf), MinutesOf(last));
    if i < |init| { PartIsPart(init, i); }
  }

  /** The reported facts of one source, one by one. */
  lemma Described(o: Observation, p: Part)
    requires o.Observed? && Reports(o, p.lens, p.lines)
    ensures o.minutesComplete <==> Histogram.Fits(MinutesOf(p))
    ensures o.minutesComplete ==> Histogram.StandsFor(o.minutes, MinutesOf(p))
    ensures AreSeverityCounts(o.severities, SeveritiesOf(p)) && TimesAre(o.times, StampsOf(p))
    ensures o.counters.physical == |p.lines| && o.counters.analyzable == Occurrences(FatesOf(p), Analyzed)
    ensures o.counters.filtered == Filtered(FatesOf(p)) && o.counters.undated == Occurrences(FatesOf(p), Undated)
  {}

  lemma DescribedAreObserved(observations: seq<Observation>, parts: seq<Part>)
    requires Describe(observations, parts)
    ensures forall o | o in observations :: o.Observed?
  {
    forall o | o in observations ensures o.Observed? {
      var i :| 0 <= i < |observations| && observations[i] == o;
      assert 0 <= i < |parts|;
    }
  }

  lemma {:induction false} ItemsStandForMinutes(observations: seq<Observation>, parts: seq<Part>)
    requires Describe(observations, parts) && AllComplete(observations)
    ensures Histogram.StandsFor(AllItems(observations), All(parts, MinutesOf))
    ensures Histogram.Fits(AllItems(observations)) <==> Histogram.Fits(All(parts, MinutesOf))
  {
    hide Reports, MinutesOf, Histogram.Weight, DistinctOf;
    if observations == [] {
    } else {
      var n := |observations| - 1;
      var o, p := observations[n], parts[n];
      assert observations == observations[..n] + [o];
      ItemsStandForMinutes(observations[..n], parts[..n]);
      assert o in observations;
      Described(o, p);
      SameAfter(AllItems(observations[..n]), All(parts[..n], MinutesOf), o.minutes, MinutesOf(p));
      SameFit(AllItems(observations), All(parts, MinutesOf));
    }
  }

  /** Appending items that stand for a log. */
  lemma SameAfter(items: seq<(int, nat)>, minutes: seq<(int, nat)>, more: seq<(int, nat)>, log: seq<(int, nat)>)
    requires Histogram.StandsFor(items, minutes) && Histogram.StandsFor(more, log)
    ensures Histogram.StandsFor(items + more, minutes + log)
  {
    hide Histogram.Weight;
    Histogram.BucketsConcat(items, more);
    Histogram.BucketsConcat(minutes, log);
    forall b ensures Histogram.Weight(items + more, b) == Histogram.Weight(minutes + log, b) {
      Histogram.WeightConcat(items, more, b);
      Histogram.WeightConcat(minutes, log, b);
    }
  }

  lemma SameFit(items: seq<(int, nat)>, log: seq<(int, nat)>)
    requires Histogram.StandsFor(items, log)
    ensures Histogram.Fits(items) <==> Histogram.Fits(log)
  {
    DistinctOfPart(Histogram.Buckets(items), Histogram.Buckets(log));
    DistinctOfPart(Histogram.Buckets(log), Histogram.Buckets(items));
  }

  // ----- merging everything else

  datatype Merged = Merged(
    physical: nat,
    analyzable: nat,
    filtered: nat,
    undated: nat,
    severities: seq<nat>,
    times: Times,
    duration: Option<int>,
    minutes: seq<(int, nat)>,
    minutesComplete: bool,
    periods: Option<Periods.Periods>)

  /** The merged result says of the lines of all sources what each report says of the lines of one. */
  ghost predicate MergedReports(m: Merged, parts: seq<Part>) {
    && m.physical == TotalLines(parts) && m.analyzable == |AllCalls(parts)|
    && m.filtered == Filtered(All(parts, FatesOf)) && m.undated == Occurrences(All(parts, FatesOf), Undated)
    && AreSeverityCounts(m.severities, All(parts, SeveritiesOf))
    && TimesAre(m.times, All(parts, StampsOf)) && m.duration == Duration(m.times)
    && (m.minutesComplete <==> Histogram.Fits(All(parts, MinutesOf)))
    && Histogram.Ascending(m.minutes)
    && (m.minutesComplete ==> Histogram.StandsFor(m.minutes, All(parts, MinutesOf)))
    && (m.periods.Some? <==> m.minutesComplete && All(parts, MinutesOf) != [])
    && (m.periods.Some? ==> Periods.PeriodsAre(m.periods.value, All(parts, MinutesOf)))
  }

  lemma {:induction false} AnalyzedLines(parts: seq<Part>)
    ensures |AllCalls(parts)| == Occurrences(All(parts, FatesOf), Analyzed)
  {
    hide Calls, Fates;
    if parts != [] {
      var init, last := parts[..|parts| - 1], parts[|parts| - 1];
      AnalyzedLines(init);
      CallsAreAnalyzed(last.lens, last.lines, TotalLines(init));
      OccurrencesConcat(All(init, FatesOf), FatesOf(last), Analyzed);
      hide Occurrences;
    }
  }

  lemma FilteredConcat(a: seq<Fate>, b: seq<Fate>)
    ensures Filtered(a + b) == Filtered(a) + Filtered(b)
    ensures Occurrences(a + b, Analyzed) == Occurrences(a, Analyzed) + Occurrences(b, Analyzed)
    ensures Occurrences(a + b, Undated) == Occurrences(a, Undated) + Occurrences(b, Undated)
  {
    hide Occurrences;
    OccurrencesConcat(a, b, Analyzed);
    OccurrencesConcat(a, b, Undated);
    OccurrencesConcat(a, b, Old);
    OccurrencesConcat(a, b, Unwanted);
  }

  lemma NothingCounted()
    ensures Filtered([]) == 0 && Occurrences([], Analyzed) == Occurrences([], Undated) == 0
    ensures AreSeverityCounts([0, 0, 0, 0, 0], [])
  {}

  lemma OneMoreCounted(observations: seq<Observation>, parts: seq<Part>, i: nat)
    requires Describe(observations, parts) && i < |parts|
    ensures |observations| == |parts| && observations[i].Observed?
    ensures TotalLines(parts[..i + 1]) == TotalLines(parts[..i]) + observations[i].counters.physical
    ensures
      var before, after := All(parts[..i], FatesOf), All(parts[..i + 1], FatesOf);
      && Occurrences(after, Analyzed) == Occurrences(before, Analyzed) + observations[i].counters.analyzable
      && Filtered(after) == Filtered(before) + observations[i].counters.filtered
      && Occurrences(after, Undated) == Occurrences(before, Undated) + observations[i].counters.undated
  {
    hide Reports, FatesOf, Filtered, Occurrences;
    Described(observations[i], parts[i]);
    AllStep(parts, i, FatesOf);
    assert parts[..i + 1] == parts[..i] + [parts[i]];
    OneMorePart(parts[..i], parts[i]);
    FilteredConcat(All(parts[..i], FatesOf), FatesOf(parts[i]));
  }

  /** The sums over the sources. */
  method MergeCounters(observations: seq<Observation>, ghost parts: seq<Part>)
    returns (physical: nat, analyzable: nat, filtered: nat, undated: nat)
    requires Describe(observations, parts)
    ensures physical == TotalLines(parts) && analyzable == |AllCalls(parts)|
    ensures filtered == Filtered(All(parts, FatesOf)) && undated == Occurrences(All(parts, FatesOf), Undated)
  {
    hide Reports, FatesOf, Filtered, Occurrences, AllCalls;
    assert parts[..0] == [] && parts[..|parts|] == parts;
    physical, analyzable, filtered, undated := 0, 0, 0, 0;
    NothingCounted();
    for i := 0 to |observations|
      invariant physical == TotalLines(parts[..i])
      invariant analyzable == Occurrences(All(parts[..i], FatesOf), Analyzed)
      invariant filtered == Filtered(All(parts[..i], FatesOf))
      invariant undated == Occurrences(All(parts[..i], FatesOf), Undated)
    {
      OneMoreCounted(observations, parts, i);
      hide *;
      var c := observations[i].counters;
      physical, analyzable := physical + c.physical, analyzable + c.analyzable;
      filtered, undated := filtered + c.filtered, undated + c.undated;
    }
    AnalyzedLines(parts);
  }

  /** The inner loop of the severity sums. */
  method AddCounts(counts: seq<nat>, more: seq<nat>, ghost a: seq<Severity>, ghost b: seq<Severity>)
    returns (sums: seq<nat>)
    requires AreSeverityCounts(counts, a) && AreSeverityCounts(more, b)
    ensures AreSeverityCounts(sums, a + b)
  {
    hide Occurrences;
    sums := counts;
    for i := 0 to |SEVERITIES|
      invariant |sums| == |SEVERITIES|
      invariant forall j | i <= j < |SEVERITIES| :: sums[j] == counts[j]
      invariant forall j | 0 <= j < i :: sums[j] == Occurrences(a + b, SEVERITIES[j])
    {
      OccurrencesConcat(a, b, SEVERITIES[i]);
      sums := sums[i := sums[i] + more[i]];
    }
  }

  method MergeSeverities(observations: seq<Observation>, ghost parts: seq<Part>) returns (counts: seq<nat>)
    requires Describe(observations, parts)
    ensures AreSeverityCounts(counts, All(parts, SeveritiesOf))
  {
    hide Reports, SeveritiesOf, AreSeverityCounts;
    counts := [0, 0, 0, 0, 0];
    NothingCounted();
    for i := 0 to |observations|
      invariant AreSeverityCounts(counts, All(parts[..i], SeveritiesOf))
    {
      Described(observations[i], parts[i]);
      AllStep(parts, i, SeveritiesOf);
      counts := AddCounts(counts, observations[i].severities, All(parts[..i], SeveritiesOf), SeveritiesOf(parts[i]));
    }
    assert parts[..|parts|] == parts;
  }

  /** The sums, the earliest first and the latest last timestamp. */
  method MergeTimes(observations: seq<Observation>, ghost parts: seq<Part>) returns (times: Times)
    requires Describe(observations, parts)
    ensures TimesAre(times, All(parts, StampsOf))
  {
    hide Reports, StampsOf, TimesAre, MergedTimes;
    times := NO_TIMES;
    NoTimes();
    for i := 0 to |observations|
      invariant TimesAre(times, All(parts[..i], StampsOf))
    {
      Described(observations[i], parts[i]);
      AllStep(parts, i, StampsOf);
      TimesMerge(times, All(parts[..i], StampsOf), observations[i].times, StampsOf(parts[i]));
      times := MergedTimes(times, observations[i].times);
    }
    assert parts[..|parts|] == parts;
  }

  /** The combined result of `analyze_sources`. */
  method Merge(observations: seq<Observation>, ghost parts: seq<Part>) returns (m: Merged)
    requires Describe(observations, parts)
    ensures MergedReports(m, parts)
  {
    var physical, analyzable, filtered, undated := MergeCounters(observations, parts);
    var severities := MergeSeverities(observations, parts);
    var times := MergeTimes(observations, parts);
    var items, complete, periods := MergeMinutes(observations, parts);
    hide *;
    return Merged(physical, analyzable, filtered, undated, severities, times, Duration(times), items, complete,
                  periods);
  }

  /** `analyze_sources`: the combined report is about the lines of the contributing sources, and so is the store. */
  method AnalyzeSources(candidates: seq<Candidate>, store: Store) returns (m: Option<Merged>, ghost parts: seq<Part>)
    requires candidates != [] && store.Valid() && store.added == []
    modifies store
    ensures store.Valid()
    ensures m.None? <==> candidates[0].CannotOpen? || !MeaningOfSource(candidates[0]).Lines?
    ensures m.Some? ==>
      (forall c | c in Sources(candidates) :: c.Opened?) && parts == PartsFrom(Sources(candidates))
    ensures m.Some? ==> store.added == AllCalls(parts) && MergedReports(m.value, parts)
  {
    hide *;
    var r;
    r, parts := ReadSources(candidates, store);
    if r.Failed? { return None, parts; }
    var merged := Merge(r.observations, parts);
    return Some(merged), parts;
  }

  /** The merged severity counts add up to the analyzed lines, which are the calls of the shared store. */
  lemma MergedSeveritiesAddUp(m: Merged, parts: seq<Part>)
    requires MergedReports(m, parts)
    ensures SumOfCounts(m.severities) == m.analyzable
  {
    hide AreSeverityCounts, SumOfCounts;
    SeveritiesAddUp(m.severities, All(parts, SeveritiesOf));
    OneSeverityEach(parts);
    AnalyzedLines(parts);
  }

  lemma {:induction false} OneSeverityEach(parts: seq<Part>)
    ensures |All(parts, SeveritiesOf)| == Occurrences(All(parts, FatesOf), Analyzed)
  {
    hide Severities, Fates;
    if parts != [] {
      var init, last := parts[..|parts| - 1], parts[|parts| - 1];
      OneSeverityEach(init);
      SeveritiesAreAnalyzed(last.lens, last.lines);
      OccurrencesConcat(All(init, FatesOf), FatesOf(last), Analyzed);
      hide Occurrences;
    }
  }
}
