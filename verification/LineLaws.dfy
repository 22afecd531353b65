/** What becomes of each line of a log and what it adds, in terms of the lines before it. */
module LineLaws {
  import opened Basics
  import opened LogLines
  import opened LineMetrics
  import opened Counting
  import opened PatternStore

  // ----- the filters

  /** The text occurs somewhere in the line. */
  ghost predicate Occurs(text: Bytes, value: Bytes) {
    exists k :: 0 <= k <= |text| && value <= text[k..]
  }

  lemma {:induction false} ContainsIs(text: Bytes, value: Bytes)
    ensures Contains(text, value) <==> Occurs(text, value)
  {
    assert text[0..] == text;
    if text != [] {
      ContainsIs(text[1..], value);
      if k :| 0 <= k <= |text[1..]| && value <= text[1..][k..] { assert text[k + 1..] == text[1..][k..]; }
      if k :| 1 <= k <= |text| && value <= text[k..] { assert text[1..][k - 1..] == text[k..]; }
    }
  }

  /** The last timestamp at or before line `i` is `t`. */
  ghost predicate LastStamp(lens: Lens, lines: seq<Line>, i: int, t: int) {
    exists j :: StampAt(lens, lines, i, t, j)
  }

  ghost predicate StampAt(lens: Lens, lines: seq<Line>, i: int, t: int, j: int) {
    && 0 <= j <= i < |lines| && lens.stamp(lines[j].bytes) == Some(t)
    && forall k | j < k <= i :: lens.stamp(lines[k].bytes).None?
  }

  ghost predicate NoStamp(lens: Lens, lines: seq<Line>, i: int) {
    i < |lines| && forall k | 0 <= k <= i :: lens.stamp(lines[k].bytes).None?
  }

  /** The line is within the time window, which only lines with a timestamp at or before them are. */
  ghost predicate Recent(lens: Lens, lines: seq<Line>, i: int) {
    lens.cutoff.Some? ==> exists t :: LastStamp(lens, lines, i, t) && t >= lens.cutoff.value
  }

  /** Some include text, if there are any, and no exclude text occurs in the line. */
  ghost predicate Passes(lens: Lens, text: Bytes) {
    && (lens.includeTexts == [] || exists v :: v in lens.includeTexts && Occurs(text, v))
    && !exists v :: v in lens.excludeTexts && Occurs(text, v)
  }

  /** A line is analyzed when it is not blank, within the time window and passes the text filters. */
  ghost predicate IsAnalyzed(lens: Lens, lines: seq<Line>, i: int)
    requires 0 <= i < |lines|
  {
    var text := lens.content(lines[i].bytes);
    !lens.blank(text) && Recent(lens, lines, i) && Passes(lens, text)
  }

  lemma {:induction false} InheritedIs(lens: Lens, lines: seq<Line>)
    requires lines != []
    ensures Inherited(lens, lines).None? <==> NoStamp(lens, lines, |lines| - 1)
    ensures forall t :: LastStamp(lens, lines, |lines| - 1, t) <==> Inherited(lens, lines) == Some(t)
  {
    var init, n := lines[..|lines| - 1], |lines| - 1;
    var stamp := lens.stamp(lines[n].bytes);
    if stamp.None? && init != [] {
      InheritedIs(lens, init);
      forall t ensures LastStamp(lens, lines, n, t) <==> LastStamp(lens, init, n - 1, t) {
        EarlierStamp(lens, lines, n, t);
      }
      assert NoStamp(lens, lines, n) <==> NoStamp(lens, init, n - 1) by {
        assert forall k | 0 <= k < n :: init[k] == lines[k];
      }
    } else if stamp.Some? {
      assert StampAt(lens, lines, n, stamp.value, n);
    }
  }

  lemma EarlierStamp(lens: Lens, lines: seq<Line>, n: nat, t: int)
    requires 0 < n == |lines| - 1 && lens.stamp(lines[n].bytes).None?
    ensures LastStamp(lens, lines, n, t) <==> LastStamp(lens, lines[..n], n - 1, t)
  {
    var init, last := lines[..n], n - 1;
    assert forall k | 0 <= k < n :: init[k] == lines[k];
    if j :| StampAt(lens, lines, n, t, j) { assert StampAt(lens, init, last, t, j); }
    if j :| StampAt(lens, init, last, t, j) { assert StampAt(lens, lines, n, t, j); }
  }

  lemma WantedIs(lens: Lens, text: Bytes)
    ensures Wanted(lens, text) <==> Passes(lens, text)
  {
    forall v ensures Contains(text, v) <==> Occurs(text, v) { ContainsIs(text, v); }
    hide Contains, Occurs;
  }

  lemma LastIsAnalyzed(lens: Lens, lines: seq<Line>)
    requires lines != []
    ensures FateOfLast(lens, lines) == Analyzed <==> IsAnalyzed(lens, lines, |lines| - 1)
    ensures FateOfLast(lens, lines) == Blank <==> lens.blank(lens.content(lines[|lines| - 1].bytes))
    ensures FateOfLast(lens, lines) == Undated <==>
      && !lens.blank(lens.content(lines[|lines| - 1].bytes))
      && lens.cutoff.Some? && NoStamp(lens, lines, |lines| - 1)
  {
    InheritedIs(lens, lines);
    WantedIs(lens, lens.content(lines[|lines| - 1].bytes));
    hide Inherited, LastStamp, NoStamp, Wanted, Passes;
    if lens.cutoff.Some? && Inherited(lens, lines).Some? {
      assert LastStamp(lens, lines, |lines| - 1, Inherited(lens, lines).value);
    }
  }

  /** Later lines change nothing for a line. */
  lemma PrefixDecides(lens: Lens, lines: seq<Line>, n: nat, i: nat)
    requires i < n <= |lines|
    ensures IsAnalyzed(lens, lines[..n], i) <==> IsAnalyzed(lens, lines, i)
  {
    hide Passes;
    forall t ensures LastStamp(lens, lines[..n], i, t) <==> LastStamp(lens, lines, i, t) {
      StampInPrefix(lens, lines, n, i, t);
    }
    hide LastStamp;
  }

  lemma StampInPrefix(lens: Lens, lines: seq<Line>, n: nat, i: nat, t: int)
    requires i < n <= |lines|
    ensures LastStamp(lens, lines[..n], i, t) <==> LastStamp(lens, lines, i, t)
  {
    var init := lines[..n];
    assert forall k | 0 <= k < n :: init[k] == lines[k];
    if j :| StampAt(lens, lines, i, t, j) { assert StampAt(lens, init, i, t, j); }
    if j :| StampAt(lens, init, i, t, j) { assert StampAt(lens, lines, i, t, j); }
  }

  // ----- the time covered

  predicate AreApart(s: (int, bool), t: (int, bool), seconds: int) {
    t.0 - s.0 == seconds
  }

  /** The duration is the largest distance of two timestamps. */
  lemma DurationIsSpread(t: Times, stamps: seq<(int, bool)>)
    requires TimesAre(t, stamps)
    ensures Duration(t).None? <==> stamps == []
    ensures Duration(t).Some? ==>
      && (exists first, last :: first in stamps && last in stamps && AreApart(first, last, Duration(t).value))
      && forall first, last | first in stamps && last in stamps :: last.0 - first.0 <= Duration(t).value
  {
    if Duration(t).Some? {
      var first :| first in stamps && first.0 == t.first.value;
      var last :| last in stamps && last.0 == t.last.value;
      assert AreApart(first, last, Duration(t).value);
    }
  }

  // ----- what the analyzed lines add

  /** `at` are the positions of the analyzed lines, in order. */
  ghost predicate AnalyzedAt(at: seq<int>, lens: Lens, lines: seq<Line>) {
    && (forall k | 0 <= k < |at| :: 0 <= at[k] < |lines|)
    && (forall j, k | 0 <= j < k < |at| :: at[j] < at[k])
    && forall i | 0 <= i < |lines| :: i in at <==> IsAnalyzed(lens, lines, i)
  }

  /** Each analyzed line goes to the pattern store with its own number, and has its severity counted. */
  ghost predicate AddsLines(at: seq<int>, lens: Lens, lines: seq<Line>, offset: nat) {
    Adds(at, lens, lines, offset, Calls(lens, lines, offset), Severities(lens, lines))
  }

  ghost predicate Adds(at: seq<int>, lens: Lens, lines: seq<Line>, offset: nat, calls: seq<Added>,
                       severities: seq<Severity>) {
    && |calls| == |at| == |severities|
    && forall k | 0 <= k < |at| :: 0 <= at[k] < |lines| &&
         AddsLine(lens, lines[at[k]].bytes, offset + at[k] + 1, calls[k], severities[k])
  }

  predicate AddsLine(lens: Lens, line: Bytes, number: int, call: Added, severity: Severity) {
    var text := lens.content(line);
    number >= 0 && call == Added(lens.normalize(text), number) && severity == lens.severity(text)
  }

  lemma AnalyzedSnoc(at: seq<int>, lens: Lens, lines: seq<Line>)
    requires lines != [] && AnalyzedAt(at, lens, lines[..|lines| - 1])
    ensures
      AnalyzedAt(if IsAnalyzed(lens, lines, |lines| - 1) then at + [|lines| - 1] else at, lens, lines)
  {
    var n := |lines| - 1;
    var more := if IsAnalyzed(lens, lines, n) then at + [n] else at;
    forall i | 0 <= i < |lines| ensures i in more <==> IsAnalyzed(lens, lines, i) {
      if i < n { PrefixDecides(lens, lines, n, i); }
    }
  }

  lemma CallsStep(lens: Lens, init: seq<Line>, line: Line, offset: nat)
    ensures
      var lines, text := init + [line], lens.content(line.bytes);
      if FateOfLast(lens, lines) == Analyzed then
        && Calls(lens, lines, offset) ==
             Calls(lens, init, offset) + [Added(lens.normalize(text), offset + |init| + 1)]
        && Severities(lens, lines) == Severities(lens, init) + [lens.severity(text)]
      else Calls(lens, lines, offset) == Calls(lens, init, offset) && Severities(lens, lines) == Severities(lens, init)
  {
    OutputsStep(lens, init, line, offset);
    hide Calls, Severities, Minutes, Stamps, Nonblank, FateOfLast;
  }

  lemma AddsMore(at: seq<int>, lens: Lens, init: seq<Line>, line: Line, offset: nat, calls: seq<Added>,
                 severities: seq<Severity>, call: Added, severity: Severity)
    requires Adds(at, lens, init, offset, calls, severities)
    ensures Adds(at, lens, init + [line], offset, calls, severities)
    ensures AddsLine(lens, line.bytes, offset + |init| + 1, call, severity) ==>
      Adds(at + [|init|], lens, init + [line], offset, calls + [call], severities + [severity])
  {
    hide AddsLine;
    forall k | 0 <= k < |at| ensures (init + [line])[at[k]] == init[at[k]] {}
  }

  lemma AddsSnoc(at: seq<int>, lens: Lens, init: seq<Line>, line: Line, offset: nat)
    requires AddsLines(at, lens, init, offset)
    ensures
      var lines, n := init + [line], |init|;
      AddsLines(if FateOfLast(lens, lines) == Analyzed then at + [n] else at, lens, lines, offset)
  {
    var text := lens.content(line.bytes);
    var call, severity := Added(lens.normalize(text), offset + |init| + 1), lens.severity(text);
    CallsStep(lens, init, line, offset);
    AddsMore(at, lens, init, line, offset, Calls(lens, init, offset), Severities(lens, init), call, severity);
    hide Adds, Calls, Severities, FateOfLast;
  }

  lemma {:induction false} OutputsOfLines(lens: Lens, lines: seq<Line>, offset: nat) returns (at: seq<int>)
    ensures AnalyzedAt(at, lens, lines) && AddsLines(at, lens, lines, offset)
  {
    if lines == [] {
      at := [];
    } else {
      var n := |lines| - 1;
      assert lines == lines[..n] + [lines[n]];
      at := OutputsOfLines(lens, lines[..n], offset);
      AnalyzedSnoc(at, lens, lines);
      AddsSnoc(at, lens, lines[..n], lines[n], offset);
      LastIsAnalyzed(lens, lines);
      hide *;
      if IsAnalyzed(lens, lines, n) { at := at + [n]; }
    }
  }

  /** `at` are the positions of the analyzed lines that carry a timestamp, in order. */
  ghost predicate StampedAt(at: seq<int>, lens: Lens, lines: seq<Line>) {
    && (forall k | 0 <= k < |at| :: 0 <= at[k] < |lines|)
    && (forall j, k | 0 <= j < k < |at| :: at[j] < at[k])
    && forall i | 0 <= i < |lines| :: i in at <==> IsAnalyzed(lens, lines, i) && lens.stamp(lines[i].bytes).Some?
  }

  /** The timestamp of each is recorded, and counted once in the minute it falls into. */
  ghost predicate AddsStamps(at: seq<int>, lens: Lens, lines: seq<Line>) {
    && |Minutes(lens, lines)| == |at| == |Stamps(lens, lines)|
    && forall k | 0 <= k < |at| :: 0 <= at[k] < |lines| &&
         AddsStamp(lens, lines[at[k]].bytes, Minutes(lens, lines)[k], Stamps(lens, lines)[k])
  }

  predicate AddsStamp(lens: Lens, line: Bytes, minute: (int, nat), stamp: (int, bool)) {
    && lens.stamp(line) == Some(stamp.0) && stamp.1 == lens.assumedLocal(line)
    && 60 * minute.0 <= stamp.0 < 60 * minute.0 + 60 && minute.1 == 1
  }

  lemma StampedSnoc(at: seq<int>, lens: Lens, lines: seq<Line>)
    requires lines != [] && StampedAt(at, lens, lines[..|lines| - 1])
    ensures
      var n := |lines| - 1;
      var added := IsAnalyzed(lens, lines, n) && lens.stamp(lines[n].bytes).Some?;
      StampedAt(if added then at + [n] else at, lens, lines)
  {
    var n := |lines| - 1;
    var added := IsAnalyzed(lens, lines, n) && lens.stamp(lines[n].bytes).Some?;
    var more := if added then at + [n] else at;
    hide IsAnalyzed;
    forall i | 0 <= i < |lines|
      ensures i in more <==> IsAnalyzed(lens, lines, i) && lens.stamp(lines[i].bytes).Some?
    {
      if i < n {
        PrefixDecides(lens, lines, n, i);
        assert lines[..n][i] == lines[i];
      }
    }
  }

  lemma AddsStampsSnoc(at: seq<int>, lens: Lens, init: seq<Line>, line: Line)
    requires AddsStamps(at, lens, init)
    ensures
      var lines, n := init + [line], |init|;
      var added := FateOfLast(lens, lines) == Analyzed && lens.stamp(line.bytes).Some?;
      AddsStamps(if added then at + [n] else at, lens, lines)
  {
    var lines, n := init + [line], |init|;
    OutputsStep(lens, init, line, 0);
    hide Minutes, Stamps, FateOfLast;
    forall k | 0 <= k < |at| ensures lines[at[k]] == init[at[k]] {}
  }

  lemma {:induction false} StampsOfLines(lens: Lens, lines: seq<Line>) returns (at: seq<int>)
    ensures StampedAt(at, lens, lines) && AddsStamps(at, lens, lines)
  {
    if lines == [] {
      at := [];
    } else {
      var n := |lines| - 1;
      assert lines == lines[..n] + [lines[n]];
      at := StampsOfLines(lens, lines[..n]);
      StampedSnoc(at, lens, lines);
      AddsStampsSnoc(at, lens, lines[..n], lines[n]);
      LastIsAnalyzed(lens, lines);
      hide *;
      if IsAnalyzed(lens, lines, n) && lens.stamp(lines[n].bytes).Some? { at := at + [n]; }
    }
  }
}
