/** LogHound's `_track_stack`: grouping Python and Java stack traces over the nonblank lines of a log. */
module StackTraces {
  import opened Basics

  const MAX_STACK_LINES_PER_GROUP: nat := 256

  datatype State = Idle | Python | Ended | Chain | Java

  /** Which of the program's line patterns match; the patterns themselves are regular expressions. */
  datatype Shape = Shape(
    traceback: bool,
    frame: bool,
    chain: bool,
    threadHeader: bool,
    javaFrame: bool,
    indented: bool,
    exception: bool,
    javaException: bool)

  /** A nonblank line with its number in the log; filters can keep it from being analyzed. */
  datatype LogLine = LogLine(number: int, analyzed: bool, dated: bool, shape: Shape)

  ghost predicate Numbered(lines: seq<LogLine>) {
    && (forall i | 0 <= i < |lines| :: lines[i].number >= 1)
    && (forall i, j | 0 <= i < j < |lines| :: lines[i].number < lines[j].number)
  }

  /** Nonblank lines `from` up to but not including `end`; a phantom header is counted without being a line. */
  datatype Group = Group(from: int, end: int, phantom: bool)

  function Size(g: Group): int {
    g.end - g.from + if g.phantom then 1 else 0
  }

  /** `header`: the last line looked like the first line of a Java trace and belongs to no group yet. */
  datatype Track = Track(groups: seq<Group>, state: State, header: bool)

  // ----- the specification

  /** The state after a line that continues an open group; `adjacent` when no line at all lies between. */
  function Continuation(state: State, shape: Shape, adjacent: bool): Option<State> {
    if shape.traceback then if state.Chain? then Some(Python) else None
    else if shape.frame then if adjacent && state.Python? then Some(Python) else None
    else if state.Ended? && shape.chain then Some(Chain)
    else if shape.threadHeader then None
    else if shape.javaFrame then if adjacent && state.Java? then Some(Java) else None
    else if adjacent && state.Python? && shape.indented then Some(Python)
    else if adjacent && state.Python? && shape.exception then Some(Ended)
    else None
  }

  /** The state after a line that opens a group. */
  function Opening(shape: Shape): Option<State> {
    if shape.traceback || shape.frame then Some(Python)
    else if shape.threadHeader || shape.javaFrame then Some(Java)
    else None
  }

  predicate OpensWithJavaFrame(shape: Shape) {
    shape.javaFrame && !shape.traceback && !shape.frame && !shape.threadHeader
  }

  function Last<T>(s: seq<T>): T
    requires s != []
  {
    s[|s| - 1]
  }

  function LastNumber(lines: seq<LogLine>): int {
    if lines == [] then 0 else Last(lines).number
  }

  /** The newest group ends at the newest nonblank line and may take an undated line more. */
  predicate IsOpen(t: Track, n: nat, l: LogLine) {
    t.state != Idle && t.groups != [] && Last(t.groups).end == n && Size(Last(t.groups)) < MAX_STACK_LINES_PER_GROUP &&
      !l.dated
  }

  function Extended(groups: seq<Group>): seq<Group>
    requires groups != []
  {
    groups[..|groups| - 1] + [Last(groups).(end := Last(groups).end + 1)]
  }

  function Opened(t: Track, before: seq<LogLine>, l: LogLine): Group {
    var afterHeader := OpensWithJavaFrame(l.shape) && l.number == LastNumber(before) + 1;
    Group(if afterHeader && before != [] && t.header then |before| - 1 else |before|, |before| + 1,
          afterHeader && before == [])
  }

  function Advance(t: Track, before: seq<LogLine>, l: LogLine): Track {
    if !l.analyzed then t.(header := false)
    else
      var adjacent := l.number == LastNumber(before) + 1;
      var next := if IsOpen(t, |before|, l) then Continuation(t.state, l.shape, adjacent) else None;
      if next.Some? then Track(Extended(t.groups), next.value, false)
      else match Opening(l.shape)
        case Some(state) => Track(t.groups + [Opened(t, before, l)], state, false)
        case None => Track(t.groups, Idle, l.shape.javaException)
  }

  function TrackOf(lines: seq<LogLine>): Track {
    if lines == [] then Track([], Idle, false)
    else Advance(TrackOf(lines[..|lines| - 1]), lines[..|lines| - 1], Last(lines))
  }

  function Total(groups: seq<Group>): int {
    if groups == [] then 0 else Total(groups[..|groups| - 1]) + Size(Last(groups))
  }

  /** How many lines really are in a group. */
  function Members(groups: seq<Group>): int {
    if groups == [] then 0 else Members(groups[..|groups| - 1]) + Last(groups).end - Last(groups).from
  }

  // ----- what the groups are

  ghost predicate InRange(g: Group, n: int) {
    0 <= g.from < g.end <= n && Size(g) <= MAX_STACK_LINES_PER_GROUP
  }

  /** Disjoint runs of nonblank lines, in order, none longer than the limit. */
  ghost predicate Runs(groups: seq<Group>, n: int) {
    && (forall g | g in groups :: InRange(g, n))
    && (forall i | 0 < i < |groups| :: groups[i - 1].end <= groups[i].from)
  }

  ghost predicate Holds(groups: seq<Group>, k: int) {
    exists g :: g in groups && g.from <= k < g.end
  }

  /** The last line is in no group while it is a possible header. */
  ghost predicate FreeHeader(t: Track, lines: seq<LogLine>) {
    t.header ==> lines != [] && Last(lines).analyzed && (t.groups != [] ==> Last(t.groups).end < |lines|)
  }

  /** Only analyzed lines are in a group, and every analyzed line that opens a group is in one. */
  ghost predicate Grouped(groups: seq<Group>, lines: seq<LogLine>) {
    && (forall k | 0 <= k < |lines| && Holds(groups, k) :: lines[k].analyzed)
    && (forall k | 0 <= k < |lines| && lines[k].analyzed && Opening(lines[k].shape).Some? :: Holds(groups, k))
  }

  ghost predicate Sound(t: Track, lines: seq<LogLine>) {
    && Runs(t.groups, |lines|)
    && FreeHeader(t, lines)
    && (t.state != Idle ==> t.groups != [])
  }

  lemma AdvanceIsSound(t: Track, before: seq<LogLine>, l: LogLine)
    requires Sound(t, before)
    ensures Sound(Advance(t, before, l), before + [l])
  {
    var more := Advance(t, before, l);
    assert Last(before + [l]) == l;
    if t.groups != [] { assert Last(t.groups) in t.groups; }
    forall g | g in more.groups ensures InRange(g, |before| + 1) {
      if g in t.groups { assert InRange(g, |before|); }
    }
  }

  lemma {:induction false} TrackIsSound(lines: seq<LogLine>)
    ensures Sound(TrackOf(lines), lines)
  {
    hide Sound, Advance;
    if lines != [] {
      var before := lines[..|lines| - 1];
      TrackIsSound(before);
      AdvanceIsSound(TrackOf(before), before, Last(lines));
      assert lines == before + [Last(lines)];
    } else {
      NothingIsSound();
    }
  }

  lemma NothingIsSound()
    ensures Sound(Track([], Idle, false), [])
  {}

  lemma HoldsExtended(groups: seq<Group>, k: int)
    requires groups != [] && Last(groups).from < Last(groups).end
    ensures Holds(Extended(groups), k) <==> Holds(groups, k) || k == Last(groups).end
  {
    var more := Extended(groups);
    if Holds(groups, k) {
      var i :| 0 <= i < |groups| && groups[i].from <= k < groups[i].end;
      assert more[i] in more && more[i].from <= k < more[i].end;
    }
    if k == Last(groups).end { assert Last(more) in more && Last(more).from <= k < Last(more).end; }
    if Holds(more, k) {
      var i :| 0 <= i < |more| && more[i].from <= k < more[i].end;
      assert groups[i] in groups;
    }
  }

  lemma HoldsAppended(groups: seq<Group>, g: Group, k: int)
    ensures Holds(groups + [g], k) <==> Holds(groups, k) || g.from <= k < g.end
  {
    var more := groups + [g];
    if Holds(groups, k) {
      var h :| h in groups && h.from <= k < h.end;
      assert h in more;
    }
    if g.from <= k < g.end { assert g in more; }
  }

  lemma NotYet(groups: seq<Group>, n: nat)
    requires Runs(groups, n)
    ensures !Holds(groups, n)
  {
    forall g | g in groups ensures !(g.from <= n < g.end) {
      assert InRange(g, n);
    }
  }

  lemma AdvanceIsGrouped(t: Track, before: seq<LogLine>, l: LogLine)
    requires Sound(t, before) && Grouped(t.groups, before)
    ensures Grouped(Advance(t, before, l).groups, before + [l])
  {
    var more := Advance(t, before, l);
    NotYet(t.groups, |before|);
    if t.groups != [] { assert InRange(Last(t.groups), |before|) by { assert Last(t.groups) in t.groups; } }
    hide Holds, Runs, Continuation, Opening, OpensWithJavaFrame;
    forall k | 0 <= k <= |before|
      ensures Holds(more.groups, k) ==> (before + [l])[k].analyzed
      ensures (before + [l])[k].analyzed && Opening((before + [l])[k].shape).Some? ==> Holds(more.groups, k)
    {
      if more.groups == t.groups {
      } else if |more.groups| == |t.groups| {
        HoldsExtended(t.groups, k);
      } else {
        HoldsAppended(t.groups, Opened(t, before, l), k);
      }
    }
  }

  /** No trace line is lost and none that was filtered out is counted. */
  lemma {:induction false} TrackIsGrouped(lines: seq<LogLine>)
    ensures Grouped(TrackOf(lines).groups, lines)
  {
    hide Sound, Advance, Grouped;
    if lines != [] {
      var before := lines[..|lines| - 1];
      TrackIsSound(before);
      TrackIsGrouped(before);
      AdvanceIsGrouped(TrackOf(before), before, Last(lines));
      assert lines == before + [Last(lines)];
    } else {
      NothingIsGrouped();
    }
  }

  lemma NothingIsGrouped()
    ensures Grouped([], [])
  {}

  // ----- which lines are in one group

  /**
   * What two successive nonblank lines of a group have in common: nothing lies between them, not even a blank line,
   * unless the second belongs to a Python chain; it carries no timestamp unless it is the frame right below a Java
   * exception line; and a thread header never continues a group.
   */
  predicate Joins(a: LogLine, b: LogLine) {
    && (b.number == a.number + 1 || b.shape.traceback || b.shape.chain)
    && (b.dated ==> a.shape.javaException && OpensWithJavaFrame(b.shape))
    && (b.shape.threadHeader ==> b.shape.traceback || b.shape.frame || b.shape.chain)
  }

  ghost predicate TightIn(g: Group, lines: seq<LogLine>) {
    forall k, m | g.from <= k && 0 <= k && m == k + 1 && m < g.end && m < |lines| :: Joins(lines[k], lines[m])
  }

  ghost predicate Tight(groups: seq<Group>, lines: seq<LogLine>) {
    forall g | g in groups :: TightIn(g, lines)
  }

  lemma TightMore(g: Group, before: seq<LogLine>, l: LogLine)
    requires TightIn(g, before) && g.end <= |before|
    ensures TightIn(g, before + [l])
  {
    assert forall k | 0 <= k < |before| :: (before + [l])[k] == before[k];
  }

  lemma TightLonger(g: Group, before: seq<LogLine>, l: LogLine)
    requires TightIn(g, before) && g.end == |before| > 0 && Joins(Last(before), l)
    ensures TightIn(g.(end := |before| + 1), before + [l])
  {
    assert forall k | 0 <= k < |before| :: (before + [l])[k] == before[k];
    hide Joins;
  }

  lemma ContinuationJoins(t: Track, before: seq<LogLine>, l: LogLine)
    requires before != [] && IsOpen(t, |before|, l)
    requires Continuation(t.state, l.shape, l.number == LastNumber(before) + 1).Some?
    ensures Joins(Last(before), l)
  {}

  lemma OpenedIsTight(t: Track, before: seq<LogLine>, l: LogLine)
    requires t.header ==> before != [] && Last(before).shape.javaException
    ensures TightIn(Opened(t, before, l), before + [l])
  {
    if before != [] {
      assert (before + [l])[|before| - 1] == Last(before) && (before + [l])[|before|] == l;
      var joined := OpensWithJavaFrame(l.shape) && l.number == LastNumber(before) + 1;
      if t.header && joined { assert Joins(Last(before), l); }
    }
  }

  lemma AdvanceIsTight(t: Track, before: seq<LogLine>, l: LogLine)
    requires Sound(t, before) && Tight(t.groups, before)
    requires t.header ==> before != [] && Last(before).shape.javaException
    ensures Tight(Advance(t, before, l).groups, before + [l])
  {
    var more := Advance(t, before, l);
    OpenedIsTight(t, before, l);
    forall g | g in t.groups ensures TightIn(g, before + [l]) {
      assert InRange(g, |before|);
      TightMore(g, before, l);
    }
    if more.groups != t.groups && |more.groups| == |t.groups| {
      assert InRange(Last(t.groups), |before|) by { assert Last(t.groups) in t.groups; }
      ContinuationJoins(t, before, l);
      TightLonger(Last(t.groups), before, l);
    }
    hide TightIn, Opened, Continuation, Opening;
  }

  lemma HeaderIs(lines: seq<LogLine>)
    ensures TrackOf(lines).header ==> lines != [] && Last(lines).shape.javaException
  {}

  /** Within a group every line joins the one before. */
  lemma {:induction false} TrackIsTight(lines: seq<LogLine>)
    ensures Tight(TrackOf(lines).groups, lines)
  {
    if lines != [] {
      var before := lines[..|lines| - 1];
      HeaderIs(before);
      TrackIsSound(before);
      TrackIsTight(before);
      hide Sound, Advance, Tight;
      AdvanceIsTight(TrackOf(before), before, Last(lines));
      assert lines == before + [Last(lines)];
    }
  }

  // ----- how many lines are counted

  lemma {:induction false} RunsFit(groups: seq<Group>, n: nat)
    requires Runs(groups, n)
    ensures 0 <= Members(groups) <= if groups == [] then 0 else Last(groups).end
    ensures groups != [] ==> Last(groups).end <= n
  {
    if groups != [] {
      assert Last(groups) in groups && InRange(Last(groups), n);
      var init := groups[..|groups| - 1];
      assert forall g | g in init :: g in groups;
      forall i | 0 < i < |init| ensures init[i - 1].end <= init[i].from {
        assert groups[i - 1].end <= groups[i].from;
      }
      RunsFit(init, n);
      if init != [] { assert Last(init) == groups[|groups| - 2]; }
    }
  }

  /** The log starts, at its line 1, with an analyzed Java frame that nothing precedes. */
  predicate StartsWithJavaFrame(lines: seq<LogLine>) {
    lines != [] && lines[0].number == 1 && lines[0].analyzed && OpensWithJavaFrame(lines[0].shape)
  }

  lemma AdvanceCounts(t: Track, before: seq<LogLine>, l: LogLine)
    requires Sound(t, before) && (before == [] ==> t == Track([], Idle, false))
    ensures
      var more := Advance(t, before, l);
      Total(more.groups) - Members(more.groups) ==
        Total(t.groups) - Members(t.groups) + if before == [] && StartsWithJavaFrame([l]) then 1 else 0
  {
    var more := Advance(t, before, l);
    if more.groups == t.groups {
    } else if |more.groups| == |t.groups| {
      assert more.groups[..|t.groups| - 1] == t.groups[..|t.groups| - 1];
    } else {
      assert more.groups[..|t.groups|] == t.groups;
    }
  }

  lemma {:induction false} TrackCounts(lines: seq<LogLine>)
    ensures Total(TrackOf(lines).groups) == Members(TrackOf(lines).groups) + if StartsWithJavaFrame(lines) then 1 else 0
  {
    hide Sound, Advance, OpensWithJavaFrame;
    if lines != [] {
      var before := lines[..|lines| - 1];
      TrackIsSound(before);
      TrackCounts(before);
      AdvanceCounts(TrackOf(before), before, Last(lines));
      assert before != [] ==> before[0] == lines[0];
      assert before == [] ==> lines == [Last(lines)];
    }
  }

  /**
   * Exactly when the reported number of stack lines is the number of lines in groups: the source's "no header yet"
   * is line 0, which a Java frame on line 1 takes for the line just before it.
   */
  lemma StackLinesAreExact(lines: seq<LogLine>)
    ensures Total(TrackOf(lines).groups) == Members(TrackOf(lines).groups) <==> !StartsWithJavaFrame(lines)
    ensures 0 <= Members(TrackOf(lines).groups) <= |lines|
  {
    hide TrackOf, Total, Members;
    TrackCounts(lines);
    TrackIsSound(lines);
    RunsFit(TrackOf(lines).groups, |lines|);
  }

  /** A log of one Java frame: one line, two stack lines. */
  lemma FrameOnLineOne(l: LogLine)
    requires l.number == 1 && l.analyzed && OpensWithJavaFrame(l.shape)
    ensures TrackOf([l]).groups == [Group(0, 1, true)] && Total(TrackOf([l]).groups) == 2
  {
    assert [l][..0] == [];
    assert TrackOf([l]) == Advance(Track([], Idle, false), [], l);
  }

  // ----- the source's mutable counters

  /** The newest group's last line and the newest nonblank line tell whether the group ends there. */
  lemma LastLines(before: seq<LogLine>, l: LogLine, end: nat)
    requires Numbered(before) && l.number > LastNumber(before) && 0 < end <= |before|
    ensures before[end - 1].number == LastNumber(before) <==> end == |before|
    ensures before[end - 1].number == l.number - 1 <==> end == |before| && l.number == LastNumber(before) + 1
  {}

  lemma TotalExtended(groups: seq<Group>)
    requires groups != []
    ensures Total(Extended(groups)) == Total(groups) + 1 && |Extended(groups)| == |groups|
    ensures Size(Last(Extended(groups))) == Size(Last(groups)) + 1 && Last(Extended(groups)).end == Last(groups).end + 1
  {
    assert Extended(groups)[..|groups| - 1] == groups[..|groups| - 1];
  }

  lemma TotalAppended(groups: seq<Group>, g: Group)
    ensures Total(groups + [g]) == Total(groups) + Size(g) && Last(groups + [g]) == g
  {
    assert (groups + [g])[..|groups|] == groups;
  }

  /** A group opens with its line and perhaps a header, real or phantom. */
  lemma OpenedSize(t: Track, before: seq<LogLine>, l: LogLine)
    ensures
      var g := Opened(t, before, l);
      var header := OpensWithJavaFrame(l.shape) && l.number == LastNumber(before) + 1 && (before == [] || t.header);
      Size(g) == (if header then 2 else 1) && g.end == |before| + 1
  {}

  lemma NewestInRange(t: Track, before: seq<LogLine>)
    requires Sound(t, before)
    ensures t.groups != [] ==> 0 < Last(t.groups).end <= |before|
    ensures t.state != Idle ==> t.groups != []
  {
    if t.groups != [] { assert InRange(Last(t.groups), |before|) by { assert Last(t.groups) in t.groups; } }
  }

  datatype Counters = Counters(groups: int, stackLines: int, state: State, lastLine: int, current: int, headerLine: int)

  /** The counters say what `t` says of `lines`. */
  ghost predicate Stands(c: Counters, t: Track, lines: seq<LogLine>) {
    && c.groups == |t.groups| && c.stackLines == Total(t.groups) && c.state == t.state
    && (t.groups != [] ==>
          && 0 < Last(t.groups).end <= |lines| && c.current == Size(Last(t.groups))
          && c.lastLine == lines[Last(t.groups).end - 1].number)
    && c.headerLine <= LastNumber(lines) && (lines == [] ==> c.headerLine == 0)
    && (lines != [] ==> (t.header <==> c.headerLine == LastNumber(lines)))
  }

  lemma NumberedSnoc(before: seq<LogLine>, l: LogLine)
    requires Numbered(before) && l.number > LastNumber(before)
    ensures Numbered(before + [l])
  {}

  lemma TrackSnoc(before: seq<LogLine>, l: LogLine)
    ensures TrackOf(before + [l]) == Advance(TrackOf(before), before, l)
    ensures !l.analyzed ==> Advance(TrackOf(before), before, l) == TrackOf(before).(header := false)
    ensures LastNumber(before + [l]) == l.number
  {
    assert (before + [l])[..|before|] == before && Last(before + [l]) == l;
  }

  /** What the comparisons with the previous line number mean. */
  lemma OpenMeans(c: Counters, t: Track, before: seq<LogLine>, l: LogLine)
    requires Stands(c, t, before) && Sound(t, before) && Numbered(before) && l.number > LastNumber(before)
    ensures
      var open := c.state != Idle && !l.dated && c.current < MAX_STACK_LINES_PER_GROUP;
      && c.state == t.state
      && (open && c.lastLine == LastNumber(before) <==> IsOpen(t, |before|, l))
      && (open && c.lastLine == l.number - 1 <==> IsOpen(t, |before|, l) && l.number == LastNumber(before) + 1)
      && (c.headerLine == l.number - 1 <==> l.number == LastNumber(before) + 1 && (before == [] || t.header))
  {
    NewestInRange(t, before);
    if t.groups != [] { LastLines(before, l, Last(t.groups).end); }
  }

  /** A line that belongs to no group; `header` when it may be the first line of a Java trace. */
  lemma PassedStands(c: Counters, t: Track, before: seq<LogLine>, l: LogLine, state: State, header: bool)
    requires Stands(c, t, before) && l.number > LastNumber(before)
    ensures Stands(c.(state := state, headerLine := if header then l.number else c.headerLine),
                   Track(t.groups, state, header), before + [l])
  {}

  lemma ExtendedStands(c: Counters, t: Track, before: seq<LogLine>, l: LogLine, next: State)
    requires Stands(c, t, before) && l.number > LastNumber(before) && t.groups != [] && Last(t.groups).end == |before|
    ensures Stands(c.(stackLines := c.stackLines + 1, current := c.current + 1, lastLine := l.number, state := next),
                   Track(Extended(t.groups), next, false), before + [l])
  {
    TotalExtended(t.groups);
  }

  lemma OpenedStands(c: Counters, t: Track, before: seq<LogLine>, l: LogLine, next: State)
    requires Stands(c, t, before) && l.number > LastNumber(before)
    ensures Stands(c.(groups := c.groups + 1, stackLines := c.stackLines + Size(Opened(t, before, l)),
                      current := Size(Opened(t, before, l)), lastLine := l.number, state := next),
                   Track(t.groups + [Opened(t, before, l)], next, false), before + [l])
  {
    TotalAppended(t.groups, Opened(t, before, l));
    OpenedSize(t, before, l);
  }

  class Tracker {
    var c: Counters
    var lastNonblank: int
    ghost var lines: seq<LogLine>

    ghost predicate Valid()
      reads this
    {
      Numbered(lines) && lastNonblank == LastNumber(lines) && Stands(c, TrackOf(lines), lines)
    }

    constructor ()
      ensures Valid() && lines == []
    {
      c, lastNonblank, lines := Counters(0, 0, Idle, 0, 0, 0), 0, [];
    }

    /** What `_record_line` does with a nonblank line for the stack counters. */
    method Record(l: LogLine)
      requires Valid() && l.number > LastNumber(lines)
      modifies this
      ensures Valid() && lines == old(lines) + [l]
    {
      ghost var before := lines;
      ghost var t := TrackOf(lines);
      TrackIsSound(lines);
      PassedStands(c, t, before, l, c.state, false);
      TrackSnoc(before, l);
      assert c.state == t.state;
      NumberedSnoc(before, l);
      hide Stands, Sound, TrackOf, Advance, Numbered;
      var previous := lastNonblank;
      lastNonblank := l.number;
      if l.analyzed { TrackStack(l, previous, t, before); }
      lines := before + [l];
    }

    /** `_track_stack`. */
    method TrackStack(l: LogLine, previousNonblank: int, ghost t: Track, ghost before: seq<LogLine>)
      requires Stands(c, t, before) && Sound(t, before) && Numbered(before) && l.number > LastNumber(before)
      requires previousNonblank == LastNumber(before) && l.analyzed
      modifies `c
      ensures Stands(c, Advance(t, before, l), before + [l])
    {
      hide Stands, Sound, Extended, Opened, Numbered, Size;
      OpenMeans(c, t, before, l);
      OpenedSize(t, before, l);
      var shape := l.shape;
      var open := c.state != Idle && !l.dated && c.current < MAX_STACK_LINES_PER_GROUP;
      var adjacent := open && c.lastLine == l.number - 1;
      var bridged := open && c.lastLine == previousNonblank;
      var header := false;
      var continues, next;
      if shape.traceback {
        continues, next := bridged && c.state == Chain, Python;
      } else if shape.frame {
        continues, next := adjacent && c.state == Python, Python;
      } else if bridged && c.state == Ended && shape.chain {
        continues, next := true, Chain;
      } else if shape.threadHeader {
        continues, next := false, Java;
      } else if shape.javaFrame {
        continues := adjacent && c.state == Java;
        header := !continues && c.headerLine == l.number - 1;
        next := Java;
      } else if adjacent && c.state == Python && (shape.indented || shape.exception) {
        continues, next := true, if shape.indented then Python else Ended;
      } else {
        PassedStands(c, t, before, l, Idle, shape.javaException);
        c := c.(state := Idle);
        if shape.javaException { c := c.(headerLine := l.number); }
        return;
      }
      if continues { ExtendedStands(c, t, before, l, next); } else { OpenedStands(c, t, before, l, next); }
      if !continues {
        var first := if header then 1 else 0;
        c := c.(groups := c.groups + 1, current := first, stackLines := c.stackLines + first);
      }
      c := c.(stackLines := c.stackLines + 1, current := c.current + 1, lastLine := l.number, state := next);
    }
  }

  // ----- whole traces

  /** Analyzed lines that follow each other in the log, of which only the first may carry a timestamp. */
  ghost predicate Consecutive(lines: seq<LogLine>) {
    && |lines| <= MAX_STACK_LINES_PER_GROUP
    && (forall i | 0 <= i < |lines| :: lines[i].analyzed && lines[i].number >= 1)
    && (forall i | 0 < i < |lines| :: lines[i].number == lines[i - 1].number + 1 && !lines[i].dated)
  }

  predicate PythonBody(shape: Shape) {
    !shape.traceback && (shape.frame || (!shape.threadHeader && !shape.javaFrame && shape.indented))
  }

  predicate PythonEnd(shape: Shape) {
    && !shape.traceback && !shape.frame && !shape.threadHeader && !shape.javaFrame && !shape.indented
    && shape.exception
  }

  lemma PythonStart(l: LogLine)
    requires l.analyzed && l.shape.traceback
    ensures TrackOf([l]) == Track([Group(0, 1, false)], Python, false)
  {
    assert [l][..0] == [];
    assert TrackOf([]) == Track([], Idle, false);
  }

  lemma PythonStep(before: seq<LogLine>, l: LogLine)
    requires 0 < |before| < MAX_STACK_LINES_PER_GROUP
    requires l.analyzed && !l.dated && l.number == LastNumber(before) + 1 && PythonBody(l.shape)
    ensures Advance(Track([Group(0, |before|, false)], Python, false), before, l) ==
      Track([Group(0, |before| + 1, false)], Python, false)
  {
    assert Extended([Group(0, |before|, false)]) == [Group(0, |before| + 1, false)];
  }

  /** A traceback header with its frames and source lines is one group. */
  lemma {:induction false} PythonTraceIsOneGroup(lines: seq<LogLine>)
    requires lines != [] && Consecutive(lines) && lines[0].shape.traceback
    requires forall i | 0 < i < |lines| :: PythonBody(lines[i].shape)
    ensures TrackOf(lines) == Track([Group(0, |lines|, false)], Python, false)
  {
    var init, last := lines[..|lines| - 1], lines[|lines| - 1];
    assert lines == init + [last];
    if |lines| == 1 {
      PythonStart(last);
    } else {
      ConsecutiveInit(init, last);
      PythonTraceIsOneGroup(init);
      TrackSnoc(init, last);
      PythonStep(init, last);
      hide TrackOf, Advance;
    }
  }

  /** So is the same with the exception line below it, which ends the trace. */
  lemma PythonTraceWithException(lines: seq<LogLine>, last: LogLine)
    requires lines != [] && Consecutive(lines + [last]) && lines[0].shape.traceback && PythonEnd(last.shape)
    requires forall i | 0 < i < |lines| :: PythonBody(lines[i].shape)
    ensures TrackOf(lines + [last]) == Track([Group(0, |lines| + 1, false)], Ended, false)
  {
    ConsecutiveInit(lines, last);
    PythonTraceIsOneGroup(lines);
    TrackSnoc(lines, last);
    hide TrackOf;
    assert last.analyzed && !last.dated && last.number == LastNumber(lines) + 1;
    assert Extended([Group(0, |lines|, false)]) == [Group(0, |lines| + 1, false)];
  }

  lemma ConsecutiveInit(lines: seq<LogLine>, last: LogLine)
    requires lines != [] && Consecutive(lines + [last])
    ensures Consecutive(lines) && |lines| < MAX_STACK_LINES_PER_GROUP
    ensures last.analyzed && !last.dated && last.number == LastNumber(lines) + 1
  {
    var all := lines + [last];
    assert forall i | 0 <= i < |lines| :: all[i] == lines[i];
    assert all[|lines|] == last;
  }

  /** A traceback that follows an ended one after a chain line joins its group, blank lines or not. */
  lemma ChainedTraces(lines: seq<LogLine>, chain: LogLine, again: LogLine)
    requires TrackOf(lines).state == Ended && TrackOf(lines).groups != []
    requires Last(TrackOf(lines).groups).end == |lines|
    requires Size(Last(TrackOf(lines).groups)) + 2 <= MAX_STACK_LINES_PER_GROUP
    requires chain.analyzed && !chain.dated && again.analyzed && !again.dated
    requires chain.shape.chain && !chain.shape.traceback && !chain.shape.frame && again.shape.traceback
    ensures
      var groups := TrackOf(lines).groups;
      TrackOf(lines + [chain] + [again]) ==
        Track(groups[..|groups| - 1] + [Last(groups).(end := |lines| + 2)], Python, false)
  {
    TrackSnoc(lines, chain);
    TrackSnoc(lines + [chain], again);
    hide TrackOf;
    var t := Advance(TrackOf(lines), lines, chain);
    assert t == Track(Extended(TrackOf(lines).groups), Chain, false);
  }

  predicate OpensNothing(shape: Shape) {
    !shape.traceback && !shape.frame && !shape.threadHeader && !shape.javaFrame
  }

  /** A Java exception line with the frames right below it is one group. */
  lemma {:induction false} JavaTraceIsOneGroup(lines: seq<LogLine>)
    requires |lines| >= 2 && Consecutive(lines)
    requires OpensNothing(lines[0].shape) && lines[0].shape.javaException
    requires forall i | 0 < i < |lines| :: OpensWithJavaFrame(lines[i].shape)
    ensures TrackOf(lines) == Track([Group(0, |lines|, false)], Java, false)
  {
    var init := lines[..|lines| - 1];
    assert Last(init) == lines[|lines| - 2];
    if |lines| == 2 {
      assert init[..0] == [];
      assert TrackOf(init) == Track([], Idle, true);
    } else {
      JavaTraceIsOneGroup(init);
    }
  }
}
