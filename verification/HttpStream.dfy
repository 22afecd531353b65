/** What a stream of response heads answers, in terms of the messages a server sends. */
module HttpStream {
  import opened Basics
  import opened HttpHead
  import opened HttpMessage
  import opened HttpRead

  const BLANK_LINE: Bytes := [CR, LF, CR, LF]

  function Status(m: Message): int {
    100 * (m.digits.0 as int - 0x30) + 10 * (m.digits.1 as int - 0x30) + (m.digits.2 as int - 0x30)
  }

  /** A status line 1xx other than 101. */
  predicate IsInterim(m: Message) {
    m.digits.0 == 0x31 && !(m.digits.1 == 0x30 && m.digits.2 == 0x31)
  }

  // ----- the byte classes

  /** The delimiters of section 5.6.2 of RFC 9110: DQUOTE and (),/:;<=>?@[\]{}. */
  predicate Delimiter(b: Byte) {
    || b == 0x22 || b == 0x28 || b == 0x29 || b == 0x2C || b == 0x2F || 0x3A <= b <= 0x40 || 0x5B <= b <= 0x5D
    || b == 0x7B || b == 0x7D
  }

  /** A field name consists of visible ASCII characters that are no delimiters. */
  lemma TokenBytes(b: Byte)
    ensures TokenByte(b) <==> 0x21 <= b <= 0x7E && !Delimiter(b)
  {}

  /** A reason phrase has no control character but the tab. */
  lemma ReasonBytes(b: Byte)
    ensures ReasonByte(b) <==> b == 9 || !(b <= 0x1F || b == 0x7F)
  {}

  // ----- the Location field

  /** The name is "location" in some letter case. */
  predicate IsLocationName(name: Bytes) {
    |name| == |LOCATION| && forall k | 0 <= k < |name| :: name[k] == LOCATION[k] || name[k] as int + 0x20 == LOCATION[k]
  }

  /** `v` is `value` without the ASCII whitespace around it. */
  ghost predicate Stripped(v: Bytes, value: Bytes) {
    && (exists before, after :: value == before + v + after && AllSpace(before) && AllSpace(after))
    && (v != [] ==> !Space(v[0]) && !Space(v[|v| - 1]))
  }

  predicate AllSpace(s: Bytes) {
    forall b | b in s :: Space(b)
  }

  /** What the fields say about the Location: nothing, one value, or too many. */
  ghost predicate NoLocation(fields: seq<Field>) {
    forall f | f in fields :: !IsLocationName(f.name)
  }

  ghost predicate OneLocation(fields: seq<Field>, v: Bytes) {
    exists i :: 0 <= i < |fields| && IsLocationName(fields[i].name) && Stripped(v, fields[i].value) &&
      forall j | 0 <= j < |fields| && j != i :: !IsLocationName(fields[j].name)
  }

  lemma LocationNames(name: Bytes)
    ensures LowerAll(name) == LOCATION <==> IsLocationName(name)
  {
    if |name| == |LOCATION| {
      forall k | 0 <= k < |name|
        ensures LowerAll(name)[k] == LOCATION[k] <==> name[k] == LOCATION[k] || name[k] as int + 0x20 == LOCATION[k]
      {
        assert LowerAll(name)[k] == Lower(name[k]);
      }
      hide LowerAll;
      assert LowerAll(name) == LOCATION <==> forall k | 0 <= k < |name| :: LowerAll(name)[k] == LOCATION[k];
    }
  }

  lemma {:induction false} StripLeftIs(s: Bytes) returns (before: Bytes)
    ensures s == before + StripLeft(s) && AllSpace(before)
    ensures StripLeft(s) != [] ==> !Space(StripLeft(s)[0])
  {
    before := [];
    if s != [] && Space(s[0]) {
      var rest := StripLeftIs(s[1..]);
      before := [s[0]] + rest;
      assert s == [s[0]] + s[1..];
    }
  }

  lemma {:induction false} StripRightIs(s: Bytes) returns (after: Bytes)
    ensures s == StripRight(s) + after && AllSpace(after)
    ensures StripRight(s) != [] ==> !Space(StripRight(s)[|StripRight(s)| - 1]) && StripRight(s)[0] == s[0]
  {
    after := [];
    if s != [] && Space(s[|s| - 1]) {
      var init := s[..|s| - 1];
      var rest := StripRightIs(init);
      after := rest + [s[|s| - 1]];
      assert s == init + [s[|s| - 1]];
    }
  }

  lemma StripIs(value: Bytes)
    ensures Stripped(StripRight(StripLeft(value)), value)
  {
    var left := StripLeft(value);
    var before := StripLeftIs(value);
    var after := StripRightIs(left);
    assert value == before + StripRight(left) + after;
  }

  lemma {:induction false} NoLocationValues(fields: seq<Field>)
    ensures NoLocation(fields) <==> LocationValues(fields) == []
  {
    if fields != [] {
      LocationNames(fields[0].name);
      NoLocationValues(fields[1..]);
      assert fields == [fields[0]] + fields[1..];
      hide LowerAll, IsLocationName;
    }
  }

  lemma {:induction false} OneLocationValue(fields: seq<Field>)
    requires |LocationValues(fields)| == 1
    ensures OneLocation(fields, LocationValues(fields)[0])
  {
    var rest := fields[1..];
    LocationNames(fields[0].name);
    if LowerAll(fields[0].name) == LOCATION {
      NoLocationValues(rest);
      StripIs(fields[0].value);
      assert forall j | 0 < j < |fields| :: fields[j] == rest[j - 1] && rest[j - 1] in rest;
    } else {
      OneLocationValue(rest);
      var i :| 0 <= i < |rest| && IsLocationName(rest[i].name) && Stripped(LocationValues(rest)[0], rest[i].value) &&
        forall j | 0 <= j < |rest| && j != i :: !IsLocationName(rest[j].name);
      assert fields[i + 1] == rest[i];
      assert forall j | 0 < j < |fields| :: fields[j] == rest[j - 1];
    }
  }

  // ----- where a rendered head ends

  ghost predicate PlainLines(lines: seq<Bytes>) {
    forall l | l in lines :: l != [] && NoNewlines(l)
  }

  lemma {:induction false} NoEarlyEnd(lines: seq<Bytes>, rest: Bytes, i: nat)
    requires lines != [] && PlainLines(lines) && i < |Joined(lines)|
    ensures !EndsAt(Joined(lines) + BLANK_LINE + rest, i)
    decreases |lines|
  {
    var s := Joined(lines) + BLANK_LINE + rest;
    var first := lines[0];
    assert first in lines;
    if i < |first| {
      assert s[i] == first[i] && first[i] in first;
    } else {
      var more := lines[1..];
      JoinedMore(first, more);
      assert lines == [first] + more;
      assert s == first + [CR, LF] + (Joined(more) + BLANK_LINE + rest);
      if i >= |first| + 2 {
        NoEarlyEnd(more, rest, i - |first| - 2);
        ShiftedEnd(first + [CR, LF], Joined(more) + BLANK_LINE + rest, i);
      } else {
        assert forall l | l in more :: l in lines;
        JoinedStarts(more);
        assert s[|first| + 2] == Joined(more)[0];
        assert s[|first| + 1] == LF;
      }
    }
  }

  lemma JoinedStarts(lines: seq<Bytes>)
    requires lines != [] && PlainLines(lines)
    ensures |Joined(lines)| > 0 && Joined(lines)[0] != CR
  {
    assert lines[0] in lines && lines[0][0] in lines[0];
  }

  lemma ShiftedEnd(a: Bytes, b: Bytes, i: nat)
    requires i >= |a|
    ensures EndsAt(a + b, i) <==> EndsAt(b, i - |a|)
  {}

  lemma RenderedEnd(m: Message, rest: Bytes)
    requires ValidMessage(m)
    ensures HasEnd(Render(m) + BLANK_LINE + rest) && FindEnd(Render(m) + BLANK_LINE + rest) == |Render(m)|
  {
    var lines := [StartLine(m)] + FieldLines(m.fields);
    StartLineParses(m);
    FieldLinesParse(m.fields);
    assert PlainLines(lines) by {
      forall l | l in lines ensures l != [] && NoNewlines(l) {
        if l != StartLine(m) { assert l in FieldLines(m.fields) && FieldLine(l); }
      }
    }
    var s := Render(m) + BLANK_LINE + rest;
    assert EndsAt(s, |Render(m)|);
    forall i: nat | i < |Render(m)| ensures !EndsAt(s, i) { NoEarlyEnd(lines, rest, i); }
  }

  // ----- the answer of a stream

  /** The heads of some messages, one after the other. */
  function Heads(messages: seq<Message>): Bytes {
    if messages == [] then [] else Render(messages[0]) + BLANK_LINE + Heads(messages[1..])
  }

  ghost predicate ValidInterims(messages: seq<Message>) {
    forall m | m in messages ::
      ValidMessage(m) && IsInterim(m) && (NoLocation(m.fields) || exists v :: OneLocation(m.fields, v))
  }

  /** What the final message answers. */
  ghost predicate Answers(m: Message, answer: Answer) {
    match answer
    case Final(status, location) =>
      status == Status(m) && if location.None? then NoLocation(m.fields) else OneLocation(m.fields, location.value)
    case Failed(failure) =>
      failure == ManyLocations && !NoLocation(m.fields) && !exists v :: OneLocation(m.fields, v)
    case _ => false
  }

  lemma {:induction false} OneLocationMeans(fields: seq<Field>, v: Bytes)
    requires OneLocation(fields, v)
    ensures |LocationValues(fields)| == 1
  {
    var i :| 0 <= i < |fields| && IsLocationName(fields[i].name) && Stripped(v, fields[i].value) &&
      forall j | 0 <= j < |fields| && j != i :: !IsLocationName(fields[j].name);
    var rest := fields[1..];
    LocationNames(fields[0].name);
    if i == 0 {
      forall f | f in rest ensures !IsLocationName(f.name) {
        var j :| 0 <= j < |rest| && rest[j] == f;
        assert fields[j + 1] == f;
      }
      NoLocationValues(rest);
    } else {
      assert rest[i - 1] == fields[i];
      assert forall j | 0 <= j < |rest| :: rest[j] == fields[j + 1];
      assert OneLocation(rest, v);
      OneLocationMeans(rest, v);
    }
  }

  /** One head: the next one is read after an interim head, and any other head is the answer. */
  lemma OneHead(m: Message, rest: Bytes)
    requires ValidMessage(m)
    ensures
      var s := Render(m) + BLANK_LINE + rest;
      && (IsInterim(m) && |LocationValues(m.fields)| <= 1 ==> AnswerOf(s) == AnswerOf(rest))
      && (!IsInterim(m) || |LocationValues(m.fields)| > 1 ==> AnswerOf(s) == Settles(ParseHead(Render(m))))
  {
    RenderedEnd(m, rest);
    ParseRendered(m);
    var s := Render(m) + BLANK_LINE + rest;
    assert s[..|Render(m)|] == Render(m) && s[|Render(m)| + 4..] == rest;
    hide Render, ParseHead, HasEnd, FindEnd, LocationValues;
  }

  lemma FinalHead(m: Message, rest: Bytes)
    requires ValidMessage(m) && !IsInterim(m)
    ensures Answers(m, AnswerOf(Render(m) + BLANK_LINE + rest))
  {
    OneHead(m, rest);
    ParseRendered(m);
    NoLocationValues(m.fields);
    if |LocationValues(m.fields)| == 1 { OneLocationValue(m.fields); }
    forall v | OneLocation(m.fields, v) ensures |LocationValues(m.fields)| == 1 { OneLocationMeans(m.fields, v); }
    hide Render, ParseHead, HasEnd, FindEnd, LocationValues, OneLocation, NoLocation, AnswerOf;
  }

  /** Interim heads are passed over, and the first other head gives status and Location. */
  lemma {:induction false} StreamAnswers(interims: seq<Message>, final: Message, rest: Bytes)
    requires ValidInterims(interims) && ValidMessage(final) && !IsInterim(final)
    ensures Answers(final, AnswerOf(Heads(interims) + (Render(final) + BLANK_LINE + rest)))
  {
    var tail := Render(final) + BLANK_LINE + rest;
    if interims == [] {
      assert Heads(interims) + tail == tail;
      FinalHead(final, rest);
    } else {
      var m, more := interims[0], interims[1..];
      assert m in interims;
      StreamAnswers(more, final, rest);
      assert Heads(interims) + tail == Render(m) + BLANK_LINE + (Heads(more) + tail);
      NoLocationValues(m.fields);
      forall v | OneLocation(m.fields, v) ensures |LocationValues(m.fields)| == 1 { OneLocationMeans(m.fields, v); }
      OneHead(m, Heads(more) + tail);
      hide *;
    }
  }

  /** A head that is no rendering of a message is refused. */
  lemma OthersAreRefused(head: Bytes, rest: Bytes)
    requires HasEnd(head + BLANK_LINE + rest) && FindEnd(head + BLANK_LINE + rest) == |head|
    requires forall m :: ValidMessage(m) ==> Render(m) != head
    ensures AnswerOf(head + BLANK_LINE + rest).Failed?
  {
    var s := head + BLANK_LINE + rest;
    assert s[..|head|] == head;
    if ParseHead(head).Head? { AcceptedIsRendered(head); }
    hide ParseHead, Render, HasEnd, FindEnd;
  }

  /** However the network cuts a stream within the limit, the reader returns the answer of its final head. */
  lemma StreamIsRead(interims: seq<Message>, final: Message, rest: Bytes, chunking: Chunking)
    requires ValidInterims(interims) && ValidMessage(final) && !IsInterim(final) && Steady(chunking)
    requires |Heads(interims) + (Render(final) + BLANK_LINE + rest)| <= MAX_HEADER_BYTES
    ensures Answers(final, Read(Heads(interims) + (Render(final) + BLANK_LINE + rest), chunking))
  {
    var s := Heads(interims) + (Render(final) + BLANK_LINE + rest);
    StreamAnswers(interims, final, rest);
    RunAnswers(s, 0, 0, chunking);
    assert s[0..] == s;
    hide AnswerOf, ReadFrom, Answers, Heads, Render;
  }
}
