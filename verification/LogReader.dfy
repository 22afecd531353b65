/** LogHound's `observe_descriptor`: a chunked reader whose lines do not depend on the chunking. */
module LogReader {
  import opened Basics
  import opened LogLines
  import opened LineMetrics
  import opened LineLaws
  import opened PatternStore
  import Histogram
  import Counting
  import Periods

  const READ_CHUNK_BYTES: nat := 64 * 1024

  /** What `os.read` does at a file position: at least one byte, an early end of file, or an error. */
  datatype Read = Delivers(atMost: nat) | EndOfFile | Fails

  // ----- compressed files

  const SIGNATURES: seq<Bytes> := [
    [0x1F, 0x8B],
    [0x42, 0x5A, 0x68],
    [0xFD, 0x37, 0x7A, 0x58, 0x5A, 0x00],
    [0x50, 0x4B, 0x03, 0x04],
    [0x50, 0x4B, 0x05, 0x06],
    [0x50, 0x4B, 0x07, 0x08],
    [0x28, 0xB5, 0x2F, 0xFD]]

  const LONGEST_SIGNATURE: nat := 6

  predicate Compressed(prefix: Bytes) {
    exists i | 0 <= i < |SIGNATURES| :: SIGNATURES[i] <= prefix
  }

  lemma SignaturesAreShort(i: nat)
    requires i < |SIGNATURES|
    ensures |SIGNATURES[i]| <= LONGEST_SIGNATURE && LF !in SIGNATURES[i]
  {}

  lemma ShorterPrefix(s: Bytes, content: Bytes, a: nat, b: nat)
    ensures a <= |content| && b <= |content| && |s| <= a && s <= content[..b] ==> s <= content[..a]
  {}

  /** Bytes before the one that completes a signature hold no newline, so no line was recorded from them. */
  lemma NothingBeforeSignature(content: Bytes, consumed: nat, now: nat)
    requires consumed <= now <= |content|
    requires !Compressed(content[..Smaller(consumed, LONGEST_SIGNATURE)])
    requires Compressed(content[..Smaller(now, LONGEST_SIGNATURE)])
    ensures LF !in content[..consumed]
  {
    var i :| 0 <= i < |SIGNATURES| && SIGNATURES[i] <= content[..Smaller(now, LONGEST_SIGNATURE)];
    SignaturesAreShort(i);
    var s := SIGNATURES[i];
    ShorterPrefix(s, content, Smaller(consumed, LONGEST_SIGNATURE), Smaller(now, LONGEST_SIGNATURE));
    assert content[..consumed] == s[..consumed];
  }

  lemma {:induction false} CleanKeepsAway(s: Bytes)
    requires LF !in s
    ensures LF !in Clean(s)
  {
    if s != [] {
      assert s == s[..|s| - 1] + [s[|s| - 1]];
      CleanKeepsAway(s[..|s| - 1]);
    }
  }

  lemma NoLinesWithoutNewline(raw: Bytes)
    requires LF !in raw
    ensures EndedLines(raw) == []
  {
    CleanKeepsAway(raw);
    PlainTail(Clean(raw));
  }

  // ----- one chunk

  /** The carry buffer between two reads. */
  datatype Carry = Carry(pending: Bytes, overlong: Bytes, isOverlong: bool)

  ghost predicate CarriesFor(carry: Carry, raw: Bytes) {
    Carries(carry.pending, carry.overlong, carry.isOverlong, Tail(Clean(raw)))
  }

  /** The lines the loop over `parts` records. */
  ghost function Recorded(carry: Carry, parts: seq<Bytes>): seq<Line> {
    if carry.isOverlong && parts != [] then [Stored(carry.overlong, false)] + StoredAll(parts[1..])
    else StoredAll(parts)
  }

  method RecordParts(m: Metrics, carry: Carry, parts: seq<Bytes>)
    requires m.Valid()
    modifies m`c, m`severity, m`times, m`lines, m.store, m.minutes, m.stacks
    ensures m.Valid() && m.before == old(m.before) && m.lines == old(m.lines) + Recorded(carry, parts)
  {
    hide Stored, Recorded, Metrics.Valid;
    var overlong := carry.isOverlong;
    NothingRecorded(carry);
    for i := 0 to |parts|
      invariant m.Valid() && m.before == old(m.before)
      invariant m.lines == old(m.lines) + Recorded(carry, parts[..i])
      invariant overlong == (carry.isOverlong && i == 0)
    {
      RecordedStep(carry, parts, i);
      if overlong {
        // The overlong line ends here; bytes beyond its retained prefix are dropped.
        m.Record(carry.overlong, false);
        overlong := false;
      } else {
        m.Record(parts[i], true);
      }
    }
    assert parts[..|parts|] == parts;
  }

  lemma NothingRecorded(carry: Carry)
    ensures Recorded(carry, []) == []
  {}

  lemma RecordedStep(carry: Carry, parts: seq<Bytes>, i: nat)
    requires i < |parts|
    ensures Recorded(carry, parts[..i + 1]) ==
      Recorded(carry, parts[..i]) +
        [if carry.isOverlong && i == 0 then Stored(carry.overlong, false) else Stored(parts[i], true)]
  {
    hide Stored;
    assert parts[..i + 1] == parts[..i] + [parts[i]];
    if i > 0 { assert parts[..i + 1][1..] == parts[..i][1..] + [parts[i]]; }
  }

  /** What the carry becomes after the tail of the joined bytes is known. */
  function NextCarry(carry: Carry, parts: seq<Bytes>, tail: Bytes): Carry {
    if carry.isOverlong && parts == [] then Carry([], carry.overlong, true)
    else if Overlong(tail) then Carry([], tail[..MAX_LINE_BYTES + 1], true)
    else Carry(tail, [], false)
  }

  /** While no line is overlong, the parts of the joined bytes are the next lines. */
  lemma PlainChunkStep(raw: Bytes, chunk: Bytes, carry: Carry)
    requires CarriesFor(carry, raw) && !carry.isOverlong
    ensures
      var joined := carry.pending + Clean(chunk);
      && EndedLines(raw + chunk) == EndedLines(raw) + Recorded(carry, Ended(joined))
      && CarriesFor(NextCarry(carry, Ended(joined), Tail(joined)), raw + chunk)
  {
    CleanConcat(raw, chunk);
    PartsOf(Clean(raw), Clean(chunk), carry.pending, carry.overlong, false);
    hide Stored, Ended, Tail, Clean, StoredAll, Overlong;
  }

  /** The first part ends an overlong line, whose retained prefix is recorded; without one it goes on. */
  lemma OverlongChunkStep(raw: Bytes, chunk: Bytes, carry: Carry)
    requires CarriesFor(carry, raw) && carry.isOverlong
    ensures
      var joined := carry.pending + Clean(chunk);
      && EndedLines(raw + chunk) == EndedLines(raw) + Recorded(carry, Ended(joined))
      && CarriesFor(NextCarry(carry, Ended(joined), Tail(joined)), raw + chunk)
  {
    CleanConcat(raw, chunk);
    PartsOf(Clean(raw), Clean(chunk), carry.pending, carry.overlong, true);
    hide Stored, Ended, Tail, Clean;
    if Ended(carry.pending + Clean(chunk)) == [] {
      assert StoredAll([]) == [];
      hide StoredAll;
      OverlongIsCut(Tail(Clean(raw)), Tail(Clean(chunk)), false);
    } else {
      hide StoredAll, Overlong;
      OverlongLineEnded(raw, chunk, carry);
    }
  }

  lemma OverlongLineEnded(raw: Bytes, chunk: Bytes, carry: Carry)
    requires CarriesFor(carry, raw) && carry.isOverlong && Ended(carry.pending + Clean(chunk)) != []
    requires Clean(raw + chunk) == Clean(raw) + Clean(chunk)
    requires StoredAll(Ended(Clean(raw) + Clean(chunk))) ==
      StoredAll(Ended(Clean(raw))) + [Stored(carry.overlong, false)] +
        StoredAll(Ended(carry.pending + Clean(chunk))[1..])
    ensures EndedLines(raw + chunk) == EndedLines(raw) + Recorded(carry, Ended(carry.pending + Clean(chunk)))
  {
    hide Stored, Ended, Tail, Clean, StoredAll, CarriesFor;
  }

  lemma ChunkStep(raw: Bytes, chunk: Bytes, carry: Carry)
    requires CarriesFor(carry, raw)
    ensures
      var joined := carry.pending + Clean(chunk);
      && EndedLines(raw + chunk) == EndedLines(raw) + Recorded(carry, Ended(joined))
      && CarriesFor(NextCarry(carry, Ended(joined), Tail(joined)), raw + chunk)
  {
    hide CarriesFor, EndedLines, Recorded, NextCarry, Clean, Ended, Tail;
    if carry.isOverlong { OverlongChunkStep(raw, chunk, carry); } else { PlainChunkStep(raw, chunk, carry); }
  }

  /** One iteration of the read loop after the bytes arrived. */
  method Feed(m: Metrics, ghost raw: Bytes, chunk: Bytes, carry: Carry) returns (next: Carry)
    requires m.Valid() && m.lines == EndedLines(raw) && CarriesFor(carry, raw)
    modifies m`c, m`severity, m`times, m`lines, m.store, m.minutes, m.stacks
    ensures m.Valid() && m.before == old(m.before)
    ensures m.lines == EndedLines(raw + chunk) && CarriesFor(next, raw + chunk)
    ensures |next.pending| <= MAX_LINE_BYTES + 1
  {
    hide Ended, Tail, Clean, EndedLines, CarriesFor, Recorded;
    var joined := carry.pending + Clean(chunk);
    var parts := Ended(joined);
    ChunkStep(raw, chunk, carry);
    RecordParts(m, carry, parts);
    return NextCarry(carry, parts, Tail(joined));
  }

  // ----- the whole read

  function ReadSize(content: Bytes, at: nat, atMost: nat): (n: nat)
    requires at < |content|
    ensures 1 <= n <= READ_CHUNK_BYTES && at + n <= |content|
  {
    var limit := Smaller(READ_CHUNK_BYTES, |content| - at);
    if atMost < 1 then 1 else Smaller(atMost, limit)
  }

  /** How far the reads get from `at`, and whether they reach the initial size. */
  ghost function Reach(content: Bytes, disk: nat -> Read, at: nat): (r: (nat, bool))
    requires at <= |content|
    ensures at <= r.0 <= |content| && (r.1 ==> r.0 == |content|)
    decreases |content| - at
  {
    if at == |content| then (at, true)
    else match disk(at)
      case Delivers(atMost) => Reach(content, disk, at + ReadSize(content, at, atMost))
      case _ => (at, false)
  }

  /** However the file is split into reads, reads that do not fail deliver all of it. */
  lemma {:induction false} SteadyReadsReachTheEnd(content: Bytes, disk: nat -> Read, at: nat)
    requires at <= |content| && forall p: nat :: disk(p).Delivers?
    ensures Reach(content, disk, at) == (|content|, true)
    decreases |content| - at
  {
    if at < |content| {
      SteadyReadsReachTheEnd(content, disk, at + ReadSize(content, at, disk(at).atMost));
    }
  }

  /** The lines a read that got this far records. */
  ghost function LinesRead(content: Bytes, reach: (nat, bool)): seq<Line>
    requires reach.0 <= |content|
  {
    if reach.1 then FileLines(content[..reach.0]) else EndedLines(content[..reach.0])
  }

  datatype Meaning = Lines(lines: seq<Line>) | IsCompressed | NothingAnalyzable

  /** What observing a source comes to; of the read sizes only how far they got matters. */
  ghost function MeaningOf(content: Bytes, disk: nat -> Read, lens: Lens): Meaning {
    var reach := Reach(content, disk, 0);
    var lines := LinesRead(content, reach);
    if Compressed(content[..Smaller(reach.0, LONGEST_SIGNATURE)]) then IsCompressed
    else if !reach.1 && Calls(lens, lines, 0) == [] then NothingAnalyzable
    else Lines(lines)
  }

  datatype Observation =
    | Observed(consumed: nat, complete: bool, nuls: nat, counters: Counters, minutes: seq<(int, nat)>,
               minutesComplete: bool,
               severities: seq<nat>, stacks: (int, int), times: Times, duration: Option<int>,
               periods: Option<Periods.Periods>)
    | RejectedAsCompressed
    | Unanalyzable

  /** What the reader knows between two reads. */
  ghost predicate Midway(m: Metrics, content: Bytes, consumed: nat, carry: Carry)
    reads m, m.store, m.minutes, m.stacks
  {
    && m.Valid()
    && consumed <= |content|
    && m.lines == EndedLines(content[..consumed])
    && CarriesFor(carry, content[..consumed])
    && |carry.pending| <= MAX_LINE_BYTES + 1
  }

  /** The file's beginning, as far as the first `consumed` bytes show it. */
  function Head(content: Bytes, consumed: nat): Bytes
    requires consumed <= |content|
  {
    content[..Smaller(consumed, LONGEST_SIGNATURE)]
  }

  /** The `signature_prefix` step of one read: grow the prefix by the chunk, then look for a signature. */
  method CheckSignature(content: Bytes, consumed: nat, now: nat, prefix: Bytes, checked: bool)
    returns (grown: Bytes, done: bool, compressed: bool)
    requires consumed < now <= |content|
    requires prefix == Head(content, consumed) && !Compressed(prefix)
    requires checked ==> |prefix| == Smaller(|content|, LONGEST_SIGNATURE)
    ensures compressed == Compressed(Head(content, now))
    ensures grown == Head(content, now)
    ensures done ==> |grown| == Smaller(|content|, LONGEST_SIGNATURE)
  {
    hide Compressed;
    var length := Smaller(|content|, LONGEST_SIGNATURE);
    if checked {
      assert Head(content, now) == prefix;
      return prefix, true, false;
    }
    var chunk := content[consumed..now];
    grown := prefix + chunk[..Smaller(length - |prefix|, |chunk|)];
    assert grown == Head(content, now);
    return grown, |grown| >= length, Compressed(grown);
  }

  /** The read loop. `reached` says how far it came; the caller flushes the carry. */
  method ReadLoop(m: Metrics, content: Bytes, disk: nat -> Read)
    returns (consumed: nat, complete: bool, compressed: bool, carry: Carry, nuls: nat)
    requires m.Valid() && m.lines == []
    modifies m`c, m`severity, m`times, m`lines, m.store, m.minutes, m.stacks
    ensures m.before == old(m.before)
    ensures !compressed ==> Midway(m, content, consumed, carry)
    ensures !compressed ==> (consumed, complete) == Reach(content, disk, 0) && !Compressed(Head(content, consumed))
    ensures !compressed ==> nuls == consumed - |Clean(content[..consumed])| == multiset(content[..consumed])[NUL]
    ensures compressed ==> m.Valid() && m.lines == [] && Compressed(Head(content, Reach(content, disk, 0).0))
  {
    hide Compressed, EndedLines, CarriesFor, Clean, Reach, Metrics.Valid;
    consumed, complete, compressed, carry, nuls := 0, false, false, Carry([], [], false), 0;
    var prefix, checked := [], false;
    Start(content);
    while consumed < |content|
      invariant Midway(m, content, consumed, carry) && m.before == old(m.before) && !complete && !compressed
      invariant Reach(content, disk, consumed) == Reach(content, disk, 0)
      invariant prefix == Head(content, consumed) && !Compressed(prefix)
      invariant checked ==> |prefix| == Smaller(|content|, LONGEST_SIGNATURE)
      invariant nuls == consumed - |Clean(content[..consumed])| == multiset(content[..consumed])[NUL]
    {
      var read := disk(consumed);
      ReachStep(content, disk, consumed);
      if !read.Delivers? { return; }
      var now := consumed + ReadSize(content, consumed, read.atMost);
      var chunk := content[consumed..now];
      prefix, checked, compressed := CheckSignature(content, consumed, now, prefix, checked);
      if compressed {
        NothingBeforeSignature(content, consumed, now);
        NoLinesWithoutNewline(content[..consumed]);
        SignatureStays(content, now, Reach(content, disk, now).0);
        return;
      }
      MoreRead(content, consumed, now);
      nuls := nuls + (|chunk| - |Clean(chunk)|);
      carry := Feed(m, content[..consumed], chunk, carry);
      consumed := now;
    }
    ReachStep(content, disk, consumed);
    complete := true;
  }

  lemma ReachStep(content: Bytes, disk: nat -> Read, at: nat)
    requires at <= |content|
    ensures at == |content| ==> Reach(content, disk, at) == (at, true)
    ensures at < |content| && disk(at).Delivers? ==>
      Reach(content, disk, at) == Reach(content, disk, at + ReadSize(content, at, disk(at).atMost))
    ensures at < |content| && !disk(at).Delivers? ==> Reach(content, disk, at) == (at, false)
  {}

  lemma MoreRead(content: Bytes, consumed: nat, now: nat)
    requires consumed <= now <= |content|
    ensures
      var before, chunk, after := content[..consumed], content[consumed..now], content[..now];
      && after == before + chunk
      && |before| - |Clean(before)| + |chunk| - |Clean(chunk)| == |after| - |Clean(after)| == multiset(after)[NUL]
  {
    assert content[..now] == content[..consumed] + content[consumed..now];
    CleanConcat(content[..consumed], content[consumed..now]);
    CleanFilters(content[..now]);
    hide *;
  }

  lemma Start(content: Bytes)
    ensures multiset(content[..0])[NUL] == 0
    ensures EndedLines(content[..0]) == [] && CarriesFor(Carry([], [], false), content[..0]) &&
      |Clean(content[..0])| == 0
    ensures Head(content, 0) == [] && !Compressed([])
  {
    assert content[..0] == [];
  }

  lemma SignatureStays(content: Bytes, now: nat, later: nat)
    requires now <= later <= |content| && Compressed(Head(content, now))
    ensures Compressed(Head(content, later))
  {
    var i :| 0 <= i < |SIGNATURES| && SIGNATURES[i] <= Head(content, now);
    assert Head(content, now) <= Head(content, later);
  }

  lemma FlushedCarry(content: Bytes, carry: Carry)
    requires CarriesFor(carry, content)
    ensures LastLine(content) ==
      if carry.isOverlong then [Stored(carry.overlong, false)]
      else if carry.pending != [] then [Stored(carry.pending, false)] else []
  {
    var tail := Tail(Clean(content));
    if carry.isOverlong {
      OverlongIsCut(tail, [], false);
      assert tail + [] == tail;
    }
  }

  /** The last, unterminated line of a completely read file. */
  method Flush(m: Metrics, content: Bytes, carry: Carry)
    requires Midway(m, content, |content|, carry)
    modifies m`c, m`severity, m`times, m`lines, m.store, m.minutes, m.stacks
    ensures m.Valid() && m.lines == FileLines(content) && m.before == old(m.before)
  {
    assert content[..|content|] == content;
    FlushedCarry(content, carry);
    hide Stored, EndedLines, LastLine, CarriesFor, Metrics.Valid;
    if carry.isOverlong {
      m.Record(carry.overlong, false);
    } else if carry.pending != [] {
      m.Record(carry.pending, false);
    }
  }

  /** The outcome of reading and flushing: no lines of a compressed file, all the lines of any other. */
  ghost predicate ReadsAs(content: Bytes, disk: nat -> Read, compressed: bool, reach: (nat, bool), nuls: nat,
                          lines: seq<Line>) {
    && compressed == Compressed(Head(content, Reach(content, disk, 0).0))
    && (compressed ==> lines == [])
    && (!compressed ==> reach == Reach(content, disk, 0) && lines == LinesRead(content, reach))
    && (!compressed ==> nuls == reach.0 - |Clean(content[..reach.0])|)
  }

  /** Everything `observe_descriptor` records, before it decides what to report. */
  method RecordAll(content: Bytes, disk: nat -> Read, lens: Lens, store: Store, offset: nat)
    returns (m: Metrics, reach: (nat, bool), compressed: bool, nuls: nat)
    requires store.Valid()
    modifies store
    ensures fresh(m) && fresh(m.minutes) && fresh(m.stacks) && m.store == store && m.lens == lens && m.offset == offset
    ensures m.Valid() && m.before == old(store.added)
    ensures ReadsAs(content, disk, compressed, reach, nuls, m.lines)
  {
    hide Compressed, EndedLines, LastLine, CarriesFor, Clean, Metrics.Valid;
    m := new Metrics(lens, offset, store);
    var consumed, complete, carry;
    consumed, complete, compressed, carry, nuls := ReadLoop(m, content, disk);
    reach := (consumed, complete);
    if !compressed && complete {
      assert content[..|content|] == content;
      Flush(m, content, carry);
    }
  }

  /** The reported counters and histogram are those of the lines. */
  ghost predicate Reports(r: Observation, lens: Lens, lines: seq<Line>)
    requires r.Observed?
  {
    && r.counters == CountersOf(lens, lines)
    && AreSeverityCounts(r.severities, Severities(lens, lines))
    && TimesAre(r.times, Stamps(lens, lines)) && r.duration == Duration(r.times)
    && (r.periods.Some? <==> r.minutesComplete && Minutes(lens, lines) != [])
    && (r.periods.Some? ==> Periods.PeriodsAre(r.periods.value, Minutes(lens, lines)))
    && (r.minutesComplete <==> Histogram.Fits(Minutes(lens, lines)))
    && Histogram.Ascending(r.minutes)
    && (r.minutesComplete ==> Histogram.StandsFor(r.minutes, Minutes(lens, lines)))
  }

  /** The halves and the peak are left out when the histogram is not complete or empty. */
  method SummarizeIf(items: seq<(int, nat)>, complete: bool, ghost log: seq<(int, nat)>)
    returns (periods: Option<Periods.Periods>)
    requires Histogram.Ascending(items) && (complete ==> Histogram.StandsFor(items, log))
    ensures periods.Some? <==> complete && log != []
    ensures periods.Some? ==> Periods.PeriodsAre(periods.value, log)
  {
    Histogram.EmptyTogether(items, log);
    if !complete || items == [] { return None; }
    var p := Periods.Summarize(items);
    Periods.PeriodsOfItems(p, items, log);
    return Some(p);
  }

  /** `tuple((name, metrics.severity.get(name, 0)) for name in SEVERITIES)`. */
  function CountsOf(severity: map<Severity, nat>): (r: seq<nat>)
    ensures |r| == |SEVERITIES|
    ensures forall i | 0 <= i < |SEVERITIES| ::
      r[i] == if SEVERITIES[i] in severity then severity[SEVERITIES[i]] else 0
  {
    seq(|SEVERITIES|, i requires 0 <= i < |SEVERITIES| =>
      if SEVERITIES[i] in severity then severity[SEVERITIES[i]] else 0)
  }

  method Report(m: Metrics, reach: (nat, bool), nuls: nat) returns (r: Observation)
    requires m.Valid()
    ensures r.Observed? && Reports(r, m.lens, m.lines) && (r.consumed, r.complete) == reach && r.nuls == nuls
    ensures r.stacks == StackCounts(m.lens, m.lines, m.offset)
  {
    var items := m.minutes.Items();
    var severities := CountsOf(m.severity);
    assert AreSeverityCounts(severities, Severities(m.lens, m.lines));
    hide TimesAre, AreSeverityCounts, Severities, StackCounts, CountersOf, Minutes, Histogram.Fits,
         Histogram.Weight, Periods.PeriodsAre, Counting.DistinctOf;
    var periods := SummarizeIf(items, m.minutes.complete, m.minutes.log);
    return Observed(reach.0, reach.1, nuls, m.c, items, m.minutes.complete, severities,
                    (m.stacks.c.groups, m.stacks.c.stackLines), m.times, Duration(m.times), periods);
  }

  /** `observe_descriptor`: its effects depend on the content and on how far the reads got, not on their sizes. */
  method Observe(content: Bytes, disk: nat -> Read, lens: Lens, store: Store, offset: nat) returns (r: Observation)
    requires store.Valid()
    modifies store
    ensures store.Valid()
    ensures r.RejectedAsCompressed? <==> MeaningOf(content, disk, lens).IsCompressed?
    ensures r.Unanalyzable? <==> MeaningOf(content, disk, lens).NothingAnalyzable?
    ensures !r.Observed? ==> store.added == old(store.added)
    ensures r.Observed? ==> MeaningOf(content, disk, lens) == Lines(LinesRead(content, Reach(content, disk, 0)))
    ensures r.Observed? ==> Reports(r, lens, LinesRead(content, Reach(content, disk, 0)))
    ensures r.Observed? ==>
      store.added == old(store.added) + Calls(lens, LinesRead(content, Reach(content, disk, 0)), offset)
    ensures r.Observed? ==> (r.consumed, r.complete) == Reach(content, disk, 0)
    ensures r.Observed? ==> r.nuls == multiset(content[..r.consumed])[NUL]
    ensures r.Observed? ==> r.stacks == StackCounts(lens, LinesRead(content, Reach(content, disk, 0)), offset)
  {
    hide Compressed, LinesRead, Clean, Calls, Reports, StackCounts;
    var m, reach, compressed, nuls := RecordAll(content, disk, lens, store, offset);
    MetricsSay(m);
    hide Metrics.Valid;
    if compressed { return RejectedAsCompressed; }
    if !reach.1 && m.c.analyzable == 0 { return Unanalyzable; }
    CleanFilters(content[..reach.0]);
    r := Report(m, reach, nuls);
  }

  lemma MetricsSay(m: Metrics)
    requires m.Valid()
    ensures m.store.Valid() && m.store.added == m.before + Calls(m.lens, m.lines, m.offset)
    ensures m.c.analyzable == 0 <==> Calls(m.lens, m.lines, 0) == []
    ensures m.c.analyzable == 0 || m.lines == [] ==> m.store.added == m.before
  {
    AnalyzableCountsCalls(m.lens, m.lines, m.offset);
    CallsDoNotDependOnOffset(m.lens, m.lines, m.offset);
  }

  lemma {:induction false} CallsDoNotDependOnOffset(lens: Lens, lines: seq<Line>, offset: nat)
    ensures Calls(lens, lines, offset) == [] <==> Calls(lens, lines, 0) == []
  {
    CallsAreAnalyzed(lens, lines, offset);
    CallsAreAnalyzed(lens, lines, 0);
  }

  lemma AnalyzableCountsCalls(lens: Lens, lines: seq<Line>, offset: nat)
    ensures CountersOf(lens, lines).analyzable == |Calls(lens, lines, offset)|
  {
    CallsAreAnalyzed(lens, lines, offset);
  }

  /** Chunk independence: any two ways of delivering the file give it the same meaning, the whole-file one. */
  lemma ChunkIndependence(content: Bytes, disk: nat -> Read, lens: Lens)
    requires forall p: nat :: disk(p).Delivers?
    ensures MeaningOf(content, disk, lens) == if Compressed(content) then IsCompressed else Lines(FileLines(content))
  {
    hide Compressed;
    SteadyReadsReachTheEnd(content, disk, 0);
    assert content[..|content|] == content;
    CompressedByHead(content);
  }

  /**
   * However its reads are cut: a file that is not compressed, and whose lines fit and end in LF alone, is read back
   * from its lines without its NUL bytes, so as it is when it has none.
   */
  lemma ChunksReadBack(content: Bytes, disk: nat -> Read, lens: Lens, text: Bytes)
    requires (forall p: nat :: disk(p).Delivers?) && !Compressed(content)
    requires Filters(text, content, NotNul()) && CR !in text && LinesFit(text)
    ensures MeaningOf(content, disk, lens).Lines?
    ensures
      var ending := if text == [] || text[|text| - 1] == LF then [] else [LF];
      Rejoined(MeaningOf(content, disk, lens).lines) == text + ending
    ensures NUL !in content ==> text == content
  {
    hide *;
    ChunkIndependence(content, disk, lens);
    FileReadsBack(content, text);
    if NUL !in content { NothingFiltered(content, text); }
  }

  lemma {:induction false} StopsAtFailure(content: Bytes, disk: nat -> Read, at: nat)
    requires at <= |content|
    ensures
      var reach := Reach(content, disk, at);
      !reach.1 ==> reach.0 < |content| && !disk(reach.0).Delivers?
    decreases |content| - at
  {
    if at < |content| && disk(at).Delivers? {
      StopsAtFailure(content, disk, at + ReadSize(content, at, disk(at).atMost));
    }
  }

  lemma NothingAnalyzed(lens: Lens, lines: seq<Line>)
    ensures Calls(lens, lines, 0) == [] <==> forall i | 0 <= i < |lines| :: !IsAnalyzed(lens, lines, i)
  {
    var at := OutputsOfLines(lens, lines, 0);
    hide IsAnalyzed;
    if at != [] { assert at[0] in at; }
  }

  /**
   * A read loop that ends early ends at a read that delivers nothing; it has recorded one line for every LF before,
   * and reports nothing when none of them is analyzed.
   */
  lemma EarlyEnd(content: Bytes, disk: nat -> Read, lens: Lens)
    ensures
      var reach := Reach(content, disk, 0);
      var lines := LinesRead(content, reach);
      !reach.1 ==>
        && reach.0 < |content| && !disk(reach.0).Delivers?
        && |lines| == multiset(content[..reach.0])[LF]
        && MeaningOf(content, disk, lens) ==
             if Compressed(content[..reach.0]) then IsCompressed
             else if forall i | 0 <= i < |lines| :: !IsAnalyzed(lens, lines, i) then NothingAnalyzable
             else Lines(lines)
  {
    var reach := Reach(content, disk, 0);
    if !reach.1 {
      StopsAtFailure(content, disk, 0);
      EndedLinesCount(content[..reach.0]);
      NothingAnalyzed(lens, EndedLines(content[..reach.0]));
      EarlyMeaning(content, disk, lens);
      hide *;
    }
  }

  lemma EarlyMeaning(content: Bytes, disk: nat -> Read, lens: Lens)
    requires !Reach(content, disk, 0).1
    ensures
      var reach := Reach(content, disk, 0);
      var lines := EndedLines(content[..reach.0]);
      && LinesRead(content, reach) == lines
      && MeaningOf(content, disk, lens) ==
           if Compressed(content[..reach.0]) then IsCompressed
           else if Calls(lens, lines, 0) == [] then NothingAnalyzable
           else Lines(lines)
  {
    var read := content[..Reach(content, disk, 0).0];
    CompressedByHead(read);
    assert Head(read, |read|) == Head(content, |read|);
    hide Reach, Compressed, EndedLines, FileLines, Calls;
  }

  lemma NothingFiltered(content: Bytes, text: Bytes)
    requires NUL !in content && Filters(text, content, NotNul())
    ensures text == content
  {
    FiltersWhole(content, NotNul());
    hide *;
    FiltersOneWay(text, content, content, NotNul());
  }

  lemma CompressedByHead(content: Bytes)
    ensures Compressed(content) <==> Compressed(Head(content, |content|))
  {
    var head := Head(content, |content|);
    if Compressed(content) {
      var i :| 0 <= i < |SIGNATURES| && SIGNATURES[i] <= content;
      SignaturesAreShort(i);
      assert SIGNATURES[i] <= head;
    }
    if Compressed(head) {
      var i :| 0 <= i < |SIGNATURES| && SIGNATURES[i] <= head;
      assert SIGNATURES[i] <= content;
    }
  }
}
