/** The whole-file meaning of LogHound's line splitting, and how it composes over chunks. */
module LogLines {
  import opened Basics

  type Bytes = seq<int>

  const NUL: int := 0
  const LF: int := 10
  const CR: int := 13
  const MAX_LINE_BYTES: nat := 1024 * 1024

  /** `chunk.replace(b"\x00", b"")`. */
  function Clean(s: Bytes): (r: Bytes)
    ensures NUL !in r && |r| <= |s|
  {
    if s == [] then [] else
      Clean(s[..|s| - 1]) + (if s[|s| - 1] == NUL then [] else [s[|s| - 1]])
  }

  lemma {:induction false} CleanConcat(a: Bytes, b: Bytes)
    ensures Clean(a + b) == Clean(a) + Clean(b)
    decreases |b|
  {
    if b == [] {
      assert a + b == a;
    } else {
      assert (a + b)[..|a + b| - 1] == a + b[..|b| - 1];
      CleanConcat(a, b[..|b| - 1]);
    }
  }

  // ----- splitting on LF

  /** The lines ended by an LF, and the bytes after the last LF. */
  function Ended(s: Bytes): seq<Bytes> {
    if s == [] then [] else
      var init := s[..|s| - 1];
      if s[|s| - 1] == LF then Ended(init) + [Tail(init)] else Ended(init)
  }

  function Tail(s: Bytes): (r: Bytes)
    ensures |r| <= |s| && LF !in r
  {
    if s == [] then [] else
      var init := s[..|s| - 1];
      if s[|s| - 1] == LF then [] else Tail(init) + [s[|s| - 1]]
  }

  /** Splitting resumes from the tail: the source's `(pending + chunk).split(b"\n")`. */
  lemma {:induction false} SplitResumes(s: Bytes, t: Bytes)
    ensures Ended(s + t) == Ended(s) + Ended(Tail(s) + t)
    ensures Tail(s + t) == Tail(Tail(s) + t)
    decreases |t|
  {
    if t == [] {
      assert s + t == s && Tail(s) + t == Tail(s);
      PlainTail(Tail(s));
    } else {
      var init := t[..|t| - 1];
      assert (s + t)[..|s + t| - 1] == s + init;
      assert (Tail(s) + t)[..|Tail(s) + t| - 1] == Tail(s) + init;
      SplitResumes(s, init);
    }
  }

  lemma {:induction false} PlainTail(s: Bytes)
    requires LF !in s
    ensures Ended(s) == [] && Tail(s) == s
  {
    if s != [] {
      assert s == s[..|s| - 1] + [s[|s| - 1]];
      PlainTail(s[..|s| - 1]);
    }
  }

  /** Putting LF-free bytes in front only lengthens the first line. */
  lemma {:induction false} SplitWithPrefix(p: Bytes, t: Bytes)
    requires LF !in p
    ensures Ended(t) == [] ==> Ended(p + t) == [] && Tail(p + t) == p + Tail(t)
    ensures Ended(t) != [] ==> Ended(p + t) == [p + Ended(t)[0]] + Ended(t)[1..] && Tail(p + t) == Tail(t)
    decreases |t|
  {
    if t == [] {
      assert p + t == p;
      PlainTail(p);
    } else {
      var init := t[..|t| - 1];
      assert (p + t)[..|p + t| - 1] == p + init;
      SplitWithPrefix(p, init);
    }
  }

  // ----- what is stored of one line

  datatype Line = Line(bytes: Bytes, truncated: bool)

  /** One CR before the LF is dropped and the rest is cut to MAX_LINE_BYTES. */
  function Stored(line: Bytes, terminated: bool): (r: Line)
    ensures |r.bytes| <= MAX_LINE_BYTES
  {
    var record := if terminated && line != [] && line[|line| - 1] == CR then line[..|line| - 1] else line;
    if |record| > MAX_LINE_BYTES then Line(record[..MAX_LINE_BYTES], true) else Line(record, false)
  }

  /** The line can no longer fit, whatever bytes follow. */
  predicate Overlong(t: Bytes) {
    |t| > MAX_LINE_BYTES + 1 || (|t| == MAX_LINE_BYTES + 1 && t[|t| - 1] != CR)
  }

  /** The retained prefix of an overlong line already determines what is stored. */
  lemma OverlongIsCut(t: Bytes, rest: Bytes, terminated: bool)
    requires Overlong(t)
    ensures Stored(t + rest, terminated) == Stored(t[..MAX_LINE_BYTES + 1], false)
    ensures Overlong(t + rest) && (t + rest)[..MAX_LINE_BYTES + 1] == t[..MAX_LINE_BYTES + 1]
  {
    if rest == [] { assert t + rest == t; }
    assert (t + rest)[..MAX_LINE_BYTES] == t[..MAX_LINE_BYTES];
    assert t[..MAX_LINE_BYTES + 1][..MAX_LINE_BYTES] == t[..MAX_LINE_BYTES];
    var whole := t + rest;
    if terminated && whole[|whole| - 1] == CR {
      assert |whole| > MAX_LINE_BYTES + 1;
      assert whole[..|whole| - 1][..MAX_LINE_BYTES] == whole[..MAX_LINE_BYTES];
    }
  }

  function StoredAll(lines: seq<Bytes>): (r: seq<Line>)
    ensures |r| == |lines|
    ensures forall i | 0 <= i < |lines| :: r[i] == Stored(lines[i], true)
  {
    seq(|lines|, i requires 0 <= i < |lines| => Stored(lines[i], true))
  }

  /** The lines of the bytes read so far that ended in an LF. */
  function EndedLines(raw: Bytes): seq<Line> {
    StoredAll(Ended(Clean(raw)))
  }

  /** The unterminated last line, if any. */
  function LastLine(raw: Bytes): seq<Line> {
    var tail := Tail(Clean(raw));
    if tail == [] then [] else [Stored(tail, false)]
  }

  /** The specification: drop NULs, split on LF, keep a non-empty tail, strip one CR before LF, cut. */
  function FileLines(raw: Bytes): seq<Line> {
    EndedLines(raw) + LastLine(raw)
  }

  lemma StoredAllConcat(a: seq<Bytes>, b: seq<Bytes>)
    ensures StoredAll(a + b) == StoredAll(a) + StoredAll(b)
  {}

  // ----- the reader's state after some bytes

  /** `pending` and `overlong` as the source keeps them for the unfinished line `tail`. */
  predicate Carries(pending: Bytes, overlong: Bytes, isOverlong: bool, tail: Bytes) {
    if isOverlong then Overlong(tail) && pending == [] && overlong == tail[..MAX_LINE_BYTES + 1]
    else pending == tail && !Overlong(tail)
  }

  /** What `parts` are to the true lines: equal, except that an overlong line lost its beginning. */
  lemma PartsOf(seen: Bytes, chunk: Bytes, pending: Bytes, overlong: Bytes, isOverlong: bool)
    requires Carries(pending, overlong, isOverlong, Tail(seen))
    ensures
      var parts := Ended(pending + chunk);
      if !isOverlong || parts == [] then StoredAll(Ended(seen + chunk)) == StoredAll(Ended(seen)) + StoredAll(parts)
      else StoredAll(Ended(seen + chunk)) == StoredAll(Ended(seen)) + [Stored(overlong, false)] + StoredAll(parts[1..])
    ensures
      var parts := Ended(pending + chunk);
      if !isOverlong || parts != [] then Tail(seen + chunk) == Tail(pending + chunk)
      else Tail(seen + chunk) == Tail(seen) + Tail(chunk)
  {
    var parts := Ended(pending + chunk);
    SplitResumes(seen, chunk);
    StoredAllConcat(Ended(seen), Ended(Tail(seen) + chunk));
    if isOverlong {
      assert pending + chunk == chunk;
      SplitWithPrefix(Tail(seen), chunk);
      if parts != [] {
        OverlongIsCut(Tail(seen), parts[0], true);
        StoredAllConcat([Tail(seen) + parts[0]], parts[1..]);
        assert StoredAll([Tail(seen) + parts[0]]) == [Stored(overlong, false)];
      }
    }
  }

  // ----- what the lines of a file are, in terms of its bytes

  function NotNul(): int -> bool {
    b => b != NUL
  }

  lemma {:induction false} CleanFilters(raw: Bytes)
    ensures Filters(Clean(raw), raw, NotNul())
    ensures |raw| - |Clean(raw)| == multiset(raw)[NUL]
  {
    if raw == [] {
      FiltersNothing(NotNul());
    } else {
      var init, last := raw[..|raw| - 1], raw[|raw| - 1];
      assert raw == init + [last];
      CleanFilters(init);
      FiltersSnoc(Clean(init), init, NotNul(), last);
      hide Filters;
    }
  }

  /** Text without its NUL bytes is one text only. */
  lemma CleanIs(raw: Bytes, text: Bytes)
    requires Filters(text, raw, NotNul())
    ensures Clean(raw) == text
  {
    CleanFilters(raw);
    hide *;
    FiltersOneWay(Clean(raw), text, raw, NotNul());
  }

  lemma {:induction false} EndedCounts(s: Bytes)
    ensures |Ended(s)| == multiset(s)[LF]
  {
    if s != [] {
      var init, last := s[..|s| - 1], s[|s| - 1];
      assert s == init + [last];
      EndedCounts(init);
    }
  }

  /** Every LF ends one line. */
  lemma EndedLinesCount(raw: Bytes)
    ensures |EndedLines(raw)| == multiset(raw)[LF]
  {
    EndedCounts(Clean(raw));
    CleanFilters(raw);
    assert NotNul()(LF);
  }

  /** The bytes of some lines, each followed by an LF. */
  function Unsplit(parts: seq<Bytes>): Bytes {
    if parts == [] then [] else Unsplit(parts[..|parts| - 1]) + parts[|parts| - 1] + [LF]
  }

  /** Splitting is undone by joining. */
  lemma {:induction false} SplitJoins(s: Bytes)
    ensures Unsplit(Ended(s)) + Tail(s) == s
    ensures forall p | p in Ended(s) :: LF !in p
  {
    if s != [] {
      var init, last := s[..|s| - 1], s[|s| - 1];
      assert s == init + [last];
      SplitJoins(init);
      if last == LF {
        var more := Ended(init) + [Tail(init)];
        assert more[..|more| - 1] == Ended(init);
        assert Unsplit(more) == Unsplit(Ended(init)) + Tail(init) + [LF];
      }
    }
  }

  /** Joining is undone by splitting, when no line contains an LF. */
  lemma {:induction false} JoinSplits(parts: seq<Bytes>, last: Bytes)
    requires (forall p | p in parts :: LF !in p) && LF !in last
    ensures Ended(Unsplit(parts) + last) == parts && Tail(Unsplit(parts) + last) == last
    decreases |parts|
  {
    PlainTail(last);
    if parts == [] {
      assert Unsplit(parts) + last == last;
    } else {
      var init, p := parts[..|parts| - 1], parts[|parts| - 1];
      assert parts == init + [p];
      JoinSplits(init, p);
      var ended := Unsplit(init) + p;
      assert (ended + [LF])[..|ended|] == ended;
      assert Unsplit(parts) == ended + [LF];
      SplitResumes(Unsplit(parts), last);
      assert [] + last == last && parts + [] == parts;
    }
  }

  /**
   * What a recorded line shows of the bytes between two newlines: all of them, but for one CR before an LF, or the
   * first MAX_LINE_BYTES of them and the truncation mark.
   */
  predicate Shows(l: Line, part: Bytes, terminated: bool) {
    && |l.bytes| <= MAX_LINE_BYTES
    && if l.truncated
       then l.bytes < part && |l.bytes| == MAX_LINE_BYTES && !(terminated && part == l.bytes + [CR])
       else part == l.bytes + if terminated && part != [] && part[|part| - 1] == CR then [CR] else []
  }

  lemma StoredShows(part: Bytes, terminated: bool)
    ensures Shows(Stored(part, terminated), part, terminated)
  {
    if terminated && part != [] && part[|part| - 1] == CR {
      assert part == part[..|part| - 1] + [CR];
      assert |part| > MAX_LINE_BYTES ==> part[..|part| - 1][..MAX_LINE_BYTES] == part[..MAX_LINE_BYTES];
    }
  }

  /** The lines `records` show the ended lines of a text and, when the text was read to its end, its last line. */
  predicate ShowLines(records: seq<Line>, parts: seq<Bytes>, last: Bytes) {
    && |records| == |parts| + (if last == [] then 0 else 1)
    && (forall i | 0 <= i < |parts| :: Shows(records[i], parts[i], true))
    && (last != [] ==> Shows(records[|parts|], last, false))
  }

  lemma StoredAllShow(parts: seq<Bytes>, last: Bytes)
    ensures ShowLines(StoredAll(parts), parts, [])
    ensures last != [] ==> ShowLines(StoredAll(parts) + [Stored(last, false)], parts, last)
  {
    StoredShows(last, false);
    hide Stored, Shows;
    forall i | 0 <= i < |parts| ensures Shows(Stored(parts[i], true), parts[i], true) { StoredShows(parts[i], true); }
  }

  /** However its bytes are cut into lines: the recorded lines show the text between the newlines. */
  lemma LinesShowText(raw: Bytes, text: Bytes, parts: seq<Bytes>, last: Bytes)
    requires Filters(text, raw, NotNul()) && text == Unsplit(parts) + last
    requires (forall p | p in parts :: LF !in p) && LF !in last
    ensures ShowLines(FileLines(raw), parts, last)
    ensures ShowLines(EndedLines(raw), parts, [])
  {
    CleanIs(raw, text);
    JoinSplits(parts, last);
    StoredAllShow(parts, last);
    hide Filters, Clean, Stored, ShowLines, Ended, Tail, Unsplit, NotNul, StoredAll;
    assert StoredAll(parts) + [] == StoredAll(parts);
  }

  // ----- reading a file back from its lines

  /** The bytes of the recorded lines, each followed by an LF. */
  function Rejoined(records: seq<Line>): Bytes {
    if records == [] then [] else Rejoined(records[..|records| - 1]) + records[|records| - 1].bytes + [LF]
  }

  /** No run of bytes without an LF is longer than MAX_LINE_BYTES. */
  ghost predicate LinesFit(text: Bytes) {
    forall i, j | 0 <= i <= j <= |text| && LF !in text[i..j] :: j - i <= MAX_LINE_BYTES
  }

  lemma {:induction false} SameBytes(records: seq<Line>, parts: seq<Bytes>)
    requires |records| == |parts| && forall i | 0 <= i < |parts| :: records[i].bytes == parts[i]
    ensures Rejoined(records) == Unsplit(parts)
  {
    if parts != [] { SameBytes(records[..|records| - 1], parts[..|parts| - 1]); }
  }

  /** A run of bytes of a text without long lines fits, and has no CR when the text has none. */
  lemma RunFits(text: Bytes, before: Bytes, run: Bytes, after: Bytes)
    requires text == before + run + after && LinesFit(text) && LF !in run && CR !in text
    ensures |run| <= MAX_LINE_BYTES && CR !in run
  {
    var i := |before|;
    assert text[i..i + |run|] == run;
    forall k | 0 <= k < |run| ensures run[k] != CR { assert text[i + k] == run[k]; }
  }

  lemma {:induction false} PartInside(parts: seq<Bytes>, last: Bytes, i: nat) returns (before: Bytes, after: Bytes)
    requires i < |parts|
    ensures Unsplit(parts) + last == before + parts[i] + after
    decreases |parts|
  {
    var init, p := parts[..|parts| - 1], parts[|parts| - 1];
    if i == |init| {
      before, after := Unsplit(init), [LF] + last;
    } else {
      before, after := PartInside(init, p + [LF] + last, i);
      assert Unsplit(parts) + last == Unsplit(init) + (p + [LF] + last);
    }
  }

  lemma ShownWhole(l: Line, part: Bytes, terminated: bool)
    requires Shows(l, part, terminated) && |part| <= MAX_LINE_BYTES && CR !in part
    ensures !l.truncated && l.bytes == part
  {}

  lemma ShownAt(records: seq<Line>, parts: seq<Bytes>, last: Bytes, i: nat)
    requires ShowLines(records, parts, last) && i < |records|
    ensures if i < |parts| then Shows(records[i], parts[i], true) else Shows(records[i], last, false)
  {
    hide Shows;
  }

  lemma PartShown(text: Bytes, records: seq<Line>, parts: seq<Bytes>, last: Bytes, i: nat)
    requires text == Unsplit(parts) + last && LinesFit(text) && CR !in text && ShowLines(records, parts, last)
    requires (forall p | p in parts :: LF !in p) && LF !in last && i < |records|
    ensures !records[i].truncated && records[i].bytes == if i < |parts| then parts[i] else last
  {
    hide *;
    ShownAt(records, parts, last, i);
    if i < |parts| {
      var part := parts[i];
      assert part in parts;
      var before, after := PartInside(parts, last, i);
      RunFits(text, before, part, after);
      ShownWhole(records[i], part, true);
    } else {
      var before := Unsplit(parts);
      assert text == before + last + [];
      RunFits(text, before, last, []);
      ShownWhole(records[i], last, false);
    }
  }

  /** A text whose lines fit and end in LF alone is read back from its lines, with an LF after the last one. */
  lemma FileReadsBack(raw: Bytes, text: Bytes)
    requires Filters(text, raw, NotNul()) && CR !in text && LinesFit(text)
    ensures Rejoined(FileLines(raw)) == text + if text == [] || text[|text| - 1] == LF then [] else [LF]
    ensures forall l | l in FileLines(raw) :: !l.truncated
  {
    var parts, last, records := Ended(text), Tail(text), FileLines(raw);
    SplitJoins(text);
    LinesShowText(raw, text, parts, last);
    TailIsEmpty(text);
    hide FileLines, LinesFit, Filters, Ended, Tail;
    forall i | 0 <= i < |records|
      ensures !records[i].truncated && records[i].bytes == if i < |parts| then parts[i] else last
    {
      PartShown(text, records, parts, last, i);
    }
    hide Shows;
    if last == [] {
      SameBytes(records, parts);
      assert Unsplit(parts) + [] == Unsplit(parts);
    } else {
      SameBytes(records[..|parts|], parts);
      assert records[..|records| - 1] == records[..|parts|];
    }
  }

  lemma TailIsEmpty(text: Bytes)
    ensures Tail(text) == [] <==> text == [] || text[|text| - 1] == LF
  {}
}
