/** LogHound's `_record_line`: what one line adds to the counters, the pattern store and the histogram. */
module LineMetrics {
  import opened Basics
  import opened LogLines
  import opened Counting
  import opened PatternStore
  import opened Histogram
  import StackTraces

  datatype Severity = Critical | Error | Warning | Info | Debug

  const SEVERITIES: seq<Severity> := [Critical, Error, Warning, Info, Debug]

  /**
   * The options and the text functions of one analysis. Timestamps, normalization, blankness, severity and trace
   * patterns are regular-expression work in the source and stay abstract here; the filters are literal texts.
   */
  datatype Lens = Lens(
    stamp: Bytes -> Option<int>,
    assumedLocal: Bytes -> bool,
    content: Bytes -> Bytes,
    blank: Bytes -> bool,
    normalize: Bytes -> Text,
    severity: Bytes -> Severity,
    shape: Bytes -> StackTraces.Shape,
    includeTexts: seq<Bytes>,
    excludeTexts: seq<Bytes>,
    cutoff: Option<int>)

  predicate Contains(text: Bytes, value: Bytes) {
    |value| <= |text| && (text[..|value|] == value || (text != [] && Contains(text[1..], value)))
  }

  predicate Wanted(lens: Lens, text: Bytes) {
    && (lens.includeTexts == [] || exists v | v in lens.includeTexts :: Contains(text, v))
    && !(lens.excludeTexts != [] && exists v | v in lens.excludeTexts :: Contains(text, v))
  }

  // ----- the specification: what a sequence of stored lines means

  /** The latest timestamp at or before the end of `lines`, which undated lines inherit. */
  function Inherited(lens: Lens, lines: seq<Line>): Option<int> {
    if lines == [] then None else
      var stamp := lens.stamp(lines[|lines| - 1].bytes);
      if stamp.Some? then stamp else Inherited(lens, lines[..|lines| - 1])
  }

  datatype Fate = Blank | Undated | Old | Unwanted | Analyzed

  /** What becomes of the last of `lines`. */
  function FateOfLast(lens: Lens, lines: seq<Line>): Fate
    requires lines != []
  {
    var text := lens.content(lines[|lines| - 1].bytes);
    var inherited := Inherited(lens, lines);
    if lens.blank(text) then Blank
    else if lens.cutoff.Some? && inherited.None? then Undated
    else if lens.cutoff.Some? && inherited.value < lens.cutoff.value then Old
    else if !Wanted(lens, text) then Unwanted
    else Analyzed
  }

  function Fates(lens: Lens, lines: seq<Line>): (r: seq<Fate>)
    ensures |r| == |lines|
  {
    if lines == [] then [] else Fates(lens, lines[..|lines| - 1]) + [FateOfLast(lens, lines)]
  }

  /** The `store.add` calls: the analyzed lines, normalized, with their numbers after `offset`. */
  function Calls(lens: Lens, lines: seq<Line>, offset: nat): seq<Added> {
    if lines == [] then [] else
      Calls(lens, lines[..|lines| - 1], offset) +
      if FateOfLast(lens, lines) == Analyzed
      then [Added(lens.normalize(lens.content(lines[|lines| - 1].bytes)), offset + |lines|)] else []
  }

  /** The severities of the analyzed lines. */
  function Severities(lens: Lens, lines: seq<Line>): seq<Severity> {
    if lines == [] then [] else
      Severities(lens, lines[..|lines| - 1]) +
      if FateOfLast(lens, lines) == Analyzed then [lens.severity(lens.content(lines[|lines| - 1].bytes))] else []
  }

  /** The minute buckets of the analyzed lines that carry a timestamp themselves. */
  function Minutes(lens: Lens, lines: seq<Line>): seq<(int, nat)> {
    if lines == [] then [] else
      var stamp := lens.stamp(lines[|lines| - 1].bytes);
      Minutes(lens, lines[..|lines| - 1]) +
      if FateOfLast(lens, lines) == Analyzed && stamp.Some? then [(stamp.value / 60, 1)] else []
  }

  /** The timestamps of the analyzed lines that carry one, and whether each was read as local time. */
  function Stamps(lens: Lens, lines: seq<Line>): seq<(int, bool)> {
    if lines == [] then [] else
      var line := lines[|lines| - 1].bytes;
      Stamps(lens, lines[..|lines| - 1]) +
      if FateOfLast(lens, lines) == Analyzed && lens.stamp(line).Some?
      then [(lens.stamp(line).value, lens.assumedLocal(line))] else []
  }

  /** The nonblank lines as the stack tracker sees them, with their numbers after `offset`. */
  function Nonblank(lens: Lens, lines: seq<Line>, offset: nat): seq<StackTraces.LogLine> {
    if lines == [] then [] else
      Nonblank(lens, lines[..|lines| - 1], offset) +
      if FateOfLast(lens, lines) == Blank then [] else [TracedLine(lens, lines, offset)]
  }

  function TracedLine(lens: Lens, lines: seq<Line>, offset: nat): StackTraces.LogLine
    requires lines != []
  {
    var line := lines[|lines| - 1].bytes;
    StackTraces.LogLine(offset + |lines|, FateOfLast(lens, lines) == Analyzed, lens.stamp(line).Some?,
                        lens.shape(lens.content(line)))
  }

  lemma {:induction false} NonblankNumbers(lens: Lens, lines: seq<Line>, offset: nat)
    ensures StackTraces.LastNumber(Nonblank(lens, lines, offset)) <= offset + |lines|
  {
    if lines != [] { NonblankNumbers(lens, lines[..|lines| - 1], offset); }
  }

  /** The reported numbers of stack groups and of stack lines. */
  function StackCounts(lens: Lens, lines: seq<Line>, offset: nat): (int, int) {
    var groups := StackTraces.TrackOf(Nonblank(lens, lines, offset)).groups;
    (|groups|, StackTraces.Total(groups))
  }

  function Truncations(lines: seq<Line>): nat {
    if lines == [] then 0 else Truncations(lines[..|lines| - 1]) + (if lines[|lines| - 1].truncated then 1 else 0)
  }

  /** One call per analyzed line. */
  lemma {:induction false} CallsAreAnalyzed(lens: Lens, lines: seq<Line>, offset: nat)
    ensures |Calls(lens, lines, offset)| == Occurrences(Fates(lens, lines), Analyzed)
  {
    if lines != [] {
      CallsAreAnalyzed(lens, lines[..|lines| - 1], offset);
      Counting.OneMore(Fates(lens, lines[..|lines| - 1]), FateOfLast(lens, lines));
    }
  }

  /** Every physical line is blank, filtered or analyzed. */
  lemma {:induction false} FatesAddUp(lens: Lens, lines: seq<Line>)
    ensures |lines| == Occurrences(Fates(lens, lines), Blank) + Filtered(Fates(lens, lines)) +
      Occurrences(Fates(lens, lines), Analyzed)
  {
    if lines != [] {
      FatesAddUp(lens, lines[..|lines| - 1]);
      Counting.OneMore(Fates(lens, lines[..|lines| - 1]), FateOfLast(lens, lines));
    }
  }

  function Filtered(fates: seq<Fate>): nat {
    Occurrences(fates, Undated) + Occurrences(fates, Old) + Occurrences(fates, Unwanted)
  }

  /** `severity_counts`: one count per severity, in the order of SEVERITIES. */
  ghost predicate AreSeverityCounts(counts: seq<nat>, all: seq<Severity>) {
    |counts| == |SEVERITIES| && forall i | 0 <= i < |SEVERITIES| :: counts[i] == Occurrences(all, SEVERITIES[i])
  }

  function SumOfCounts(counts: seq<nat>): nat {
    if counts == [] then 0 else counts[0] + SumOfCounts(counts[1..])
  }

  lemma {:induction false} CountsAreTotal(counts: seq<nat>, keys: seq<Severity>, all: seq<Severity>)
    requires |counts| == |keys| && forall i | 0 <= i < |keys| :: counts[i] == Occurrences(all, keys[i])
    ensures SumOfCounts(counts) == Counting.Total(keys, all)
  {
    if keys != [] { CountsAreTotal(counts[1..], keys[1..], all); }
  }

  /** The reported severity counts add up to the lines classified. */
  lemma SeveritiesAddUp(counts: seq<nat>, all: seq<Severity>)
    requires AreSeverityCounts(counts, all)
    ensures SumOfCounts(counts) == |all|
  {
    CountsAreTotal(counts, SEVERITIES, all);
    Counting.Conservation(SEVERITIES, all);
    forall s | s in all ensures s in SEVERITIES {
      match s
      case Critical => assert SEVERITIES[0] == s;
      case Error => assert SEVERITIES[1] == s;
      case Warning => assert SEVERITIES[2] == s;
      case Info => assert SEVERITIES[3] == s;
      case Debug => assert SEVERITIES[4] == s;
    }
    Counting.OutsideNothing(SEVERITIES, all);
  }

  /** Each analyzed line has one severity. */
  lemma {:induction false} SeveritiesAreAnalyzed(lens: Lens, lines: seq<Line>)
    ensures |Severities(lens, lines)| == Occurrences(Fates(lens, lines), Analyzed)
  {
    if lines != [] {
      SeveritiesAreAnalyzed(lens, lines[..|lines| - 1]);
      Counting.OneMore(Fates(lens, lines[..|lines| - 1]), FateOfLast(lens, lines));
    }
  }

  // ----- the time range

  datatype Times = Times(timestamped: nat, localTime: nat, first: Option<int>, last: Option<int>)

  const NO_TIMES: Times := Times(0, 0, None, None)

  function Locals(stamps: seq<(int, bool)>): nat {
    if stamps == [] then 0 else Locals(stamps[..|stamps| - 1]) + (if stamps[|stamps| - 1].1 then 1 else 0)
  }

  ghost predicate IsExtreme(o: Option<int>, stamps: seq<(int, bool)>, sign: int) {
    && (o.None? <==> stamps == [])
    && (o.Some? ==>
          (exists s :: s in stamps && s.0 == o.value) && forall s | s in stamps :: sign * o.value <= sign * s.0)
  }

  /** The counts are those of the timestamps, `first` is the earliest of them and `last` the latest. */
  ghost predicate TimesAre(t: Times, stamps: seq<(int, bool)>) {
    t.timestamped == |stamps| && t.localTime == Locals(stamps) && IsExtreme(t.first, stamps, 1) &&
      IsExtreme(t.last, stamps, -1)
  }

  lemma ExtremeStep(o: Option<int>, stamps: seq<(int, bool)>, sign: int, s: (int, bool))
    requires IsExtreme(o, stamps, sign) && (sign == 1 || sign == -1)
    ensures IsExtreme(if o.None? || sign * s.0 < sign * o.value then Some(s.0) else o, stamps + [s], sign)
  {
    var more := stamps + [s];
    assert s in more by { assert more[|stamps|] == s; }
    if o.Some? && !(sign * s.0 < sign * o.value) {
      var x :| x in stamps && x.0 == o.value;
      assert x in more;
    }
  }

  lemma NoTimes()
    ensures TimesAre(NO_TIMES, [])
  {}

  lemma TimesStep(t: Times, stamps: seq<(int, bool)>, s: (int, bool))
    requires TimesAre(t, stamps)
    ensures TimesAre(Times(t.timestamped + 1, t.localTime + (if s.1 then 1 else 0),
                           if t.first.None? || s.0 < t.first.value then Some(s.0) else t.first,
                           if t.last.None? || s.0 > t.last.value then Some(s.0) else t.last), stamps + [s])
  {
    ExtremeStep(t.first, stamps, 1, s);
    ExtremeStep(t.last, stamps, -1, s);
    assert (stamps + [s])[..|stamps|] == stamps;
  }

  // ----- time ranges of several sources

  function Extreme(a: Option<int>, b: Option<int>, sign: int): Option<int> {
    if a.None? then b else if b.None? || sign * a.value <= sign * b.value then a else b
  }

  function MergedTimes(a: Times, b: Times): Times {
    Times(a.timestamped + b.timestamped, a.localTime + b.localTime, Extreme(a.first, b.first, 1),
          Extreme(a.last, b.last, -1))
  }

  lemma ExtremeMerges(a: Option<int>, x: seq<(int, bool)>, b: Option<int>, y: seq<(int, bool)>, sign: int)
    requires IsExtreme(a, x, sign) && IsExtreme(b, y, sign)
    ensures IsExtreme(Extreme(a, b, sign), x + y, sign)
  {
    var o := Extreme(a, b, sign);
    if o.Some? {
      var s :| (s in x || s in y) && s.0 == o.value;
      assert s in x + y;
    }
  }

  lemma {:induction false} LocalsConcat(a: seq<(int, bool)>, b: seq<(int, bool)>)
    ensures Locals(a + b) == Locals(a) + Locals(b)
    decreases |b|
  {
    if b == [] {
      assert a + b == a;
    } else {
      assert (a + b)[..|a + b| - 1] == a + b[..|b| - 1];
      LocalsConcat(a, b[..|b| - 1]);
    }
  }

  /** The merged counts, earliest and latest are those of all timestamps together. */
  lemma TimesMerge(a: Times, x: seq<(int, bool)>, b: Times, y: seq<(int, bool)>)
    requires TimesAre(a, x) && TimesAre(b, y)
    ensures TimesAre(MergedTimes(a, b), x + y)
  {
    hide IsExtreme, Extreme;
    ExtremeMerges(a.first, x, b.first, y, 1);
    ExtremeMerges(a.last, x, b.last, y, -1);
    LocalsConcat(x, y);
  }

  /** `duration_seconds`. */
  function Duration(t: Times): Option<int> {
    if t.first.Some? && t.last.Some? then Some(t.last.value - t.first.value) else None
  }

  // ----- the counters

  datatype Counters = Counters(
    physical: nat,
    analyzable: nat,
    filtered: nat,
    undated: nat,
    truncated: nat,
    inherited: Option<int>)

  function CountersOf(lens: Lens, lines: seq<Line>): Counters {
    var fates := Fates(lens, lines);
    Counters(|lines|, Occurrences(fates, Analyzed), Filtered(fates), Occurrences(fates, Undated), Truncations(lines),
             Inherited(lens, lines))
  }

  lemma CountersStep(lens: Lens, lines: seq<Line>, line: Line)
    ensures
      var more := lines + [line];
      var fate := FateOfLast(lens, more);
      var c := CountersOf(lens, lines);
      Inherited(lens, more) == (if lens.stamp(line.bytes).Some? then lens.stamp(line.bytes) else c.inherited) &&
      CountersOf(lens, more) == Counters(
        c.physical + 1,
        c.analyzable + (if fate == Analyzed then 1 else 0),
        c.filtered + (if fate.Undated? || fate.Old? || fate.Unwanted? then 1 else 0),
        c.undated + (if fate.Undated? then 1 else 0),
        c.truncated + (if line.truncated then 1 else 0),
        Inherited(lens, more))
  {
    var more := lines + [line];
    assert more[..|lines|] == lines;
    Counting.OneMore(Fates(lens, lines), FateOfLast(lens, more));
  }

  /** `s` followed by `x` when `added` holds. */
  function Plus<T>(s: seq<T>, added: bool, x: T): seq<T> {
    if added then s + [x] else s
  }

  lemma OutputsStep(lens: Lens, lines: seq<Line>, line: Line, offset: nat)
    ensures
      var more := lines + [line];
      var analyzed := FateOfLast(lens, more) == Analyzed;
      var text := lens.content(line.bytes);
      var stamp := lens.stamp(line.bytes);
      && Calls(lens, more, offset) ==
           Plus(Calls(lens, lines, offset), analyzed, Added(lens.normalize(text), offset + |lines| + 1))
      && Severities(lens, more) == Plus(Severities(lens, lines), analyzed, lens.severity(text))
      && Minutes(lens, more) ==
           Plus(Minutes(lens, lines), analyzed && stamp.Some?, (if stamp.Some? then stamp.value / 60 else 0, 1))
      && Stamps(lens, more) ==
           Plus(Stamps(lens, lines), analyzed && stamp.Some?,
                (if stamp.Some? then stamp.value else 0, lens.assumedLocal(line.bytes)))
      && Nonblank(lens, more, offset) == Plus(Nonblank(lens, lines, offset), FateOfLast(lens, more) != Blank,
           StackTraces.LogLine(offset + |lines| + 1, analyzed, stamp.Some?, lens.shape(text)))
  {
    var more := lines + [line];
    assert more[..|lines|] == lines;
  }

  // ----- the source's mutable metrics

  class Metrics {
    const lens: Lens
    const offset: nat
    const store: Store
    const minutes: Table
    const stacks: StackTraces.Tracker
    var c: Counters
    var severity: map<Severity, nat>
    var times: Times
    ghost var lines: seq<Line>
    ghost var before: seq<Added>

    ghost predicate SeveritiesAre(all: seq<Severity>)
      reads this
    {
      forall s :: (if s in severity then severity[s] else 0) == Occurrences(all, s)
    }

    /** Every counter and both tables are exactly what the lines recorded so far mean. */
    ghost predicate Valid()
      reads this, store, minutes, stacks
    {
      && store.Valid() && minutes.Valid() && stacks.Valid()
      && c == CountersOf(lens, lines)
      && store.added == before + Calls(lens, lines, offset)
      && minutes.log == Minutes(lens, lines)
      && stacks.lines == Nonblank(lens, lines, offset)
      && SeveritiesAre(Severities(lens, lines))
      && TimesAre(times, Stamps(lens, lines))
    }

    constructor (lens: Lens, offset: nat, store: Store)
      requires store.Valid()
      ensures Valid() && lines == [] && before == store.added && this.store == store && fresh(minutes) && fresh(stacks)
      ensures this.lens == lens && this.offset == offset
    {
      this.lens, this.offset, this.store := lens, offset, store;
      minutes := new Table();
      stacks := new StackTraces.Tracker();
      c := Counters(0, 0, 0, 0, 0, None);
      severity, times, lines, before := map[], NO_TIMES, [], store.added;
      new;
      NoTimes();
    }

    /** The counters of `_record_line`, up to the decision whether the line is analyzed. */
    method Count(line: Line) returns (fate: Fate)
      requires c == CountersOf(lens, lines)
      modifies this`c
      ensures c == CountersOf(lens, lines + [line]) && fate == FateOfLast(lens, lines + [line])
    {
      CountersStep(lens, lines, line);
      hide CountersOf, Inherited, Wanted;
      var stamp := lens.stamp(line.bytes);
      var text := lens.content(line.bytes);
      var inherited := if stamp.Some? then stamp else c.inherited;
      c := c.(physical := c.physical + 1, inherited := inherited,
              truncated := c.truncated + if line.truncated then 1 else 0);
      if lens.blank(text) { return Blank; }
      if lens.cutoff.Some? && inherited.None? {
        c := c.(undated := c.undated + 1, filtered := c.filtered + 1);
        return Undated;
      }
      if lens.cutoff.Some? && inherited.value < lens.cutoff.value {
        c := c.(filtered := c.filtered + 1);
        return Old;
      }
      if !Wanted(lens, text) {
        c := c.(filtered := c.filtered + 1);
        return Unwanted;
      }
      c := c.(analyzable := c.analyzable + 1);
      return Analyzed;
    }

    /** `record` and `_record_line` for one line of the splitter. */
    method Record(data: Bytes, terminated: bool)
      requires Valid()
      modifies this`c, this`severity, this`times, this`lines, store, minutes, stacks
      ensures Valid() && lines == old(lines) + [Stored(data, terminated)] && before == old(before)
    {
      var line := Stored(data, terminated);
      OutputsStep(lens, lines, line, offset);
      hide CountersOf, Calls, Severities, Minutes, Stored, FateOfLast, Store.Valid, Table.Valid, Nonblank, Stamps,
           TimesAre, StackTraces.Tracker.Valid;
      PhysicalIsLength();
      NonblankNumbers(lens, lines, offset);
      var fate := Count(line);
      if fate == Analyzed { Tally(lens.content(line.bytes), lens.stamp(line.bytes), lens.assumedLocal(line.bytes)); }
      if fate != Blank {
        var text := lens.content(line.bytes);
        stacks.Record(StackTraces.LogLine(offset + c.physical, fate == Analyzed, lens.stamp(line.bytes).Some?,
                                          lens.shape(text)));
      }
      lines := lines + [line];
    }

    lemma PhysicalIsLength()
      requires c == CountersOf(lens, lines)
      ensures CountersOf(lens, lines).physical == |lines|
      ensures forall line :: CountersOf(lens, lines + [line]).physical == |lines| + 1
    {}

    /** The updates of an analyzed line. */
    method Tally(text: Bytes, stamp: Option<int>, local: bool)
      requires store.Valid() && minutes.Valid() && SeveritiesAre(Severities(lens, lines))
      requires TimesAre(times, Stamps(lens, lines))
      modifies this`severity, this`times, store, minutes
      ensures store.Valid() && minutes.Valid()
      ensures store.added == old(store.added) + [Added(lens.normalize(text), offset + c.physical)]
      ensures minutes.log == old(minutes.log) + (if stamp.Some? then [(stamp.value / 60, 1)] else [])
      ensures SeveritiesAre(Severities(lens, lines) + [lens.severity(text)])
      ensures TimesAre(times, Plus(Stamps(lens, lines), stamp.Some?, (if stamp.Some? then stamp.value else 0, local)))
    {
      hide Store.Valid, Table.Valid, Severities, TimesAre, Stamps;
      store.Add(lens.normalize(text), offset + c.physical);
      var name := lens.severity(text);
      Counting.OneMore(Severities(lens, lines), name);
      severity := severity[name := (if name in severity then severity[name] else 0) + 1];
      if stamp.Some? {
        TimesStep(times, Stamps(lens, lines), (stamp.value, local));
        times := times.(timestamped := times.timestamped + 1, localTime := times.localTime + if local then 1 else 0);
        if times.first.None? || stamp.value < times.first.value { times := times.(first := stamp); }
        if times.last.None? || stamp.value > times.last.value { times := times.(last := stamp); }
        minutes.Add(stamp.value / 60, 1);
      }
    }
  }
}
