/** Response heads as messages: what the parser accepts is what section 4 of RFC 9112 lets a server send. */
module HttpMessage {
  import opened Basics
  import opened HttpHead

  /** One header field: everything between the colon and the CRLF is the value. */
  datatype Field = Field(name: Bytes, value: Bytes)

  datatype Message = Message(minor: Byte, digits: (Byte, Byte, Byte), reason: Option<Bytes>, fields: seq<Field>)

  predicate NoNewlines(s: Bytes) {
    CR !in s && LF !in s
  }

  predicate ValidField(f: Field) {
    f.name != [] && (forall b | b in f.name :: TokenByte(b)) && NoNewlines(f.value)
  }

  predicate ValidMessage(m: Message) {
    && (m.minor == 0x30 || m.minor == 0x31)
    && IsDigit(m.digits.0) && IsDigit(m.digits.1) && IsDigit(m.digits.2)
    && (m.reason.Some? ==> forall b | b in m.reason.value :: ReasonByte(b))
    && forall f | f in m.fields :: ValidField(f)
  }

  function StartLine(m: Message): Bytes {
    HTTP1 + [m.minor, 0x20, m.digits.0, m.digits.1, m.digits.2] +
    (match m.reason case None => [] case Some(text) => [0x20] + text)
  }

  function FieldText(f: Field): Bytes {
    f.name + [COLON] + f.value
  }

  function FieldLines(fields: seq<Field>): (lines: seq<Bytes>)
    ensures |lines| == |fields|
    ensures forall i | 0 <= i < |fields| :: lines[i] == FieldText(fields[i])
  {
    if fields == [] then [] else [FieldText(fields[0])] + FieldLines(fields[1..])
  }

  /** The lines of a head separated by CRLF. */
  function Joined(lines: seq<Bytes>): Bytes
    requires lines != []
  {
    if |lines| == 1 then lines[0] else lines[0] + [CR, LF] + Joined(lines[1..])
  }

  function Render(m: Message): Bytes {
    Joined([StartLine(m)] + FieldLines(m.fields))
  }

  // ----- splitting undoes joining

  lemma {:induction false} LinesOfPlain(line: Bytes, rest: Bytes)
    requires NoNewlines(line)
    ensures Lines(line + [CR, LF] + rest) == [line] + Lines(rest)
    ensures OnlyPairedNewlines(line + [CR, LF] + rest) == OnlyPairedNewlines(rest)
    decreases |line|
  {
    var s := line + [CR, LF] + rest;
    if line == [] {
      assert s[2..] == rest;
    } else {
      assert s[1..] == line[1..] + [CR, LF] + rest;
      assert s[0] in line;
      LinesOfPlain(line[1..], rest);
      assert line == [line[0]] + line[1..];
    }
  }

  lemma {:induction false} LinesOfLast(line: Bytes)
    requires NoNewlines(line)
    ensures Lines(line) == [line] && OnlyPairedNewlines(line)
  {
    if line != [] {
      assert line[0] in line;
      LinesOfLast(line[1..]);
      assert line == [line[0]] + line[1..];
    }
  }

  lemma {:induction false} LinesOfJoined(lines: seq<Bytes>)
    requires lines != [] && forall l | l in lines :: NoNewlines(l)
    ensures Lines(Joined(lines)) == lines && OnlyPairedNewlines(Joined(lines))
    decreases |lines|
  {
    if |lines| == 1 {
      LinesOfLast(lines[0]);
    } else {
      LinesOfPlain(lines[0], Joined(lines[1..]));
      LinesOfJoined(lines[1..]);
      assert lines == [lines[0]] + lines[1..];
    }
  }

  lemma JoinedCons(b: Byte, lines: seq<Bytes>)
    requires lines != []
    ensures Joined([[b] + lines[0]] + lines[1..]) == [b] + Joined(lines)
  {
    assert lines == [lines[0]] + lines[1..];
    PrependByte(b, lines[0], lines[1..]);
  }

  lemma PrependByte(b: Byte, head: Bytes, rest: seq<Bytes>)
    ensures Joined([[b] + head] + rest) == [b] + Joined([head] + rest)
  {
    hide Joined;
    if rest == [] {
      JoinedOne(head);
      JoinedOne([b] + head);
      assert [[b] + head] + rest == [[b] + head] && [head] + rest == [head];
    } else {
      JoinedMore(head, rest);
      JoinedMore([b] + head, rest);
      assert ([b] + head) + [CR, LF] + Joined(rest) == [b] + (head + [CR, LF] + Joined(rest));
    }
  }

  lemma LinesStep(s: Bytes)
    ensures Lines(s) ==
      if s == [] then [[]]
      else if |s| >= 2 && s[0] == CR && s[1] == LF then [[]] + Lines(s[2..])
      else [[s[0]] + Lines(s[1..])[0]] + Lines(s[1..])[1..]
  {}

  /** Joining undoes splitting. */
  lemma {:induction false} JoinedLines(s: Bytes)
    ensures Joined(Lines(s)) == s
    decreases |s|
  {
    hide Joined, Lines;
    LinesStep(s);
    if s == [] {
      JoinedOne(s);
    } else if |s| >= 2 && s[0] == CR && s[1] == LF {
      JoinedLines(s[2..]);
      JoinedMore([], Lines(s[2..]));
      assert s == [CR, LF] + s[2..];
    } else {
      JoinedLines(s[1..]);
      JoinedCons(s[0], Lines(s[1..]));
      assert s == [s[0]] + s[1..];
    }
  }

  lemma JoinedOne(line: Bytes)
    ensures Joined([line]) == line
  {}

  lemma JoinedMore(line: Bytes, rest: seq<Bytes>)
    requires rest != []
    ensures Joined([line] + rest) == line + [CR, LF] + Joined(rest)
  {
    assert ([line] + rest)[1..] == rest;
  }

  /** Paired newlines leave lines without any. */
  lemma {:induction false} LinesAreClean(s: Bytes)
    requires OnlyPairedNewlines(s)
    ensures forall l | l in Lines(s) :: NoNewlines(l)
    decreases |s|
  {
    if s == [] {
    } else if |s| >= 2 && s[0] == CR && s[1] == LF {
      LinesAreClean(s[2..]);
    } else {
      LinesAreClean(s[1..]);
      var rest := Lines(s[1..]);
      assert rest[0] in rest;
    }
  }

  // ----- one line at a time

  lemma StartLineParses(m: Message)
    requires ValidMessage(m)
    ensures StatusLine(StartLine(m)) && NoNewlines(StartLine(m))
    ensures StatusCode(StartLine(m)) == 100 * DigitOf(m.digits.0) + 10 * DigitOf(m.digits.1) + DigitOf(m.digits.2)
  {
    var line := StartLine(m);
    assert line[..7] == HTTP1;
    if m.reason.Some? { assert line[13..] == m.reason.value; }
  }

  lemma {:induction false} ColonAfterName(name: Bytes, value: Bytes)
    requires forall b | b in name :: TokenByte(b)
    ensures FirstColon(name + [COLON] + value) == |name|
  {
    var line := name + [COLON] + value;
    if name != [] {
      assert line[0] in name && line[1..] == name[1..] + [COLON] + value;
      ColonAfterName(name[1..], value);
    }
  }

  lemma FieldTextParses(f: Field)
    requires ValidField(f)
    ensures FieldLine(FieldText(f)) && NoNewlines(FieldText(f)) && FirstColon(FieldText(f)) == |f.name|
    ensures FieldText(f)[..|f.name|] == f.name && FieldText(f)[|f.name| + 1..] == f.value
  {
    ColonAfterName(f.name, f.value);
    assert FieldText(f)[..|f.name|] == f.name && FieldText(f)[|f.name| + 1..] == f.value;
    assert FieldText(f)[0] in f.name;
  }

  /** The values of the fields named Location in any letter case, without surrounding whitespace. */
  function LocationValues(fields: seq<Field>): seq<Bytes> {
    if fields == [] then [] else
      (if LowerAll(fields[0].name) == LOCATION then [StripRight(StripLeft(fields[0].value))] else [])
      + LocationValues(fields[1..])
  }

  lemma {:induction false} FieldLinesParse(fields: seq<Field>)
    requires forall f | f in fields :: ValidField(f)
    ensures forall l | l in FieldLines(fields) :: FieldLine(l) && NoNewlines(l)
    ensures Locations(FieldLines(fields)) == LocationValues(fields)
  {
    hide FieldText;
    if fields != [] {
      FieldTextParses(fields[0]);
      FieldLinesParse(fields[1..]);
      assert FieldLines(fields)[1..] == FieldLines(fields[1..]);
    }
  }

  /** What the parser makes of a message a server may send. */
  lemma ParseRendered(m: Message)
    requires ValidMessage(m)
    ensures ParseHead(Render(m)) ==
      if |LocationValues(m.fields)| > 1 then Malformed(ManyLocations)
      else Head(100 * DigitOf(m.digits.0) + 10 * DigitOf(m.digits.1) + DigitOf(m.digits.2),
                if LocationValues(m.fields) == [] then None else Some(LocationValues(m.fields)[0]))
  {
    StartLineParses(m);
    FieldLinesParse(m.fields);
    var lines := [StartLine(m)] + FieldLines(m.fields);
    LinesOfJoined(lines);
    hide StartLine, FieldLines, Joined, Lines, LocationValues, StatusLine;
    assert lines[1..] == FieldLines(m.fields);
  }

  // ----- nothing else is accepted

  function FieldOf(line: Bytes): Field
    requires FieldLine(line)
  {
    Field(line[..FirstColon(line)], line[FirstColon(line) + 1..])
  }

  function FieldsOf(lines: seq<Bytes>): seq<Field>
    requires forall l | l in lines :: FieldLine(l)
  {
    if lines == [] then [] else [FieldOf(lines[0])] + FieldsOf(lines[1..])
  }

  function MessageOf(start: Bytes, lines: seq<Bytes>): Message
    requires StatusLine(start) && forall l | l in lines :: FieldLine(l)
  {
    Message(start[7], (start[9], start[10], start[11]),
            if |start| == 12 then None else Some(start[13..]), FieldsOf(lines))
  }

  lemma LineIsFieldText(line: Bytes)
    requires FieldLine(line) && NoNewlines(line)
    ensures ValidField(FieldOf(line)) && FieldText(FieldOf(line)) == line
  {}

  lemma {:induction false} LinesAreFieldLines(lines: seq<Bytes>)
    requires forall l | l in lines :: FieldLine(l) && NoNewlines(l)
    ensures FieldLines(FieldsOf(lines)) == lines
    ensures forall f | f in FieldsOf(lines) :: ValidField(f)
  {
    hide FieldText, FieldOf;
    if lines != [] {
      LineIsFieldText(lines[0]);
      LinesAreFieldLines(lines[1..]);
      assert FieldsOf(lines)[1..] == FieldsOf(lines[1..]);
    }
  }

  lemma StartLineIsRendered(start: Bytes, lines: seq<Bytes>)
    requires StatusLine(start) && forall l | l in lines :: FieldLine(l)
    ensures StartLine(MessageOf(start, lines)) == start
  {
    var t := StartLine(MessageOf(start, lines));
    assert |t| == |start|;
    forall i | 0 <= i < |start| ensures t[i] == start[i] {
      if i < 7 { assert start[..7][i] == HTTP1[i]; }
    }
  }

  /** Every accepted head is the rendering of a valid message, so nothing outside the grammar gets through. */
  lemma AcceptedIsRendered(head: Bytes)
    requires ParseHead(head).Head?
    ensures exists m :: ValidMessage(m) && Render(m) == head
  {
    var lines := Lines(head);
    var start, rest := lines[0], lines[1..];
    assert StatusLine(start) && (forall l | l in rest :: FieldLine(l)) && lines == [start] + rest;
    JoinedLines(head);
    LinesAreClean(head);
    var m := MessageOf(start, rest);
    StartLineIsRendered(start, rest);
    LinesAreFieldLines(rest);
    MessageIsValid(start, rest);
    assert ValidMessage(m) && Render(m) == head by { hide *; RenderIs(m, start, rest); }
  }

  lemma RenderIs(m: Message, start: Bytes, rest: seq<Bytes>)
    requires StartLine(m) == start && FieldLines(m.fields) == rest
    ensures Render(m) == Joined([start] + rest)
  {}

  lemma MessageIsValid(start: Bytes, lines: seq<Bytes>)
    requires StatusLine(start) && forall l | l in lines :: FieldLine(l)
    requires forall f | f in FieldsOf(lines) :: ValidField(f)
    ensures ValidMessage(MessageOf(start, lines))
  {}
}
