/** HTTP/1.x response heads: the parser `_parse_http_head` and the stream it defines. */
module HttpHead {
  import opened Basics

  type Byte = b: int | 0 <= b < 256
  type Bytes = seq<Byte>

  const CR: Byte := 13
  const LF: Byte := 10

  // ----- finding the CRLF CRLF that ends a head

  predicate EndsAt(s: Bytes, i: nat) {
    i + 4 <= |s| && s[i] == CR && s[i + 1] == LF && s[i + 2] == CR && s[i + 3] == LF
  }

  ghost predicate HasEnd(s: Bytes) {
    exists i: nat :: EndsAt(s, i)
  }

  /** `response.index(b"\r\n\r\n")`, or |s| when there is none. */
  function FindEnd(s: Bytes): (r: nat)
    ensures HasEnd(s) ==> EndsAt(s, r) && forall j: nat | j < r :: !EndsAt(s, j)
    ensures !HasEnd(s) ==> r == |s|
  {
    if |s| < 4 then |s|
    else if EndsAt(s, 0) then 0
    else
      var r := FindEnd(s[1..]);
      assert forall i: nat :: EndsAt(s[1..], i) <==> EndsAt(s, i + 1);
      assert HasEnd(s) ==> HasEnd(s[1..]) by {
        if HasEnd(s) {
          var i: nat :| EndsAt(s, i);
          assert EndsAt(s[1..], i - 1);
        }
      }
      assert forall j: nat | 0 < j :: EndsAt(s, j) ==> EndsAt(s[1..], j - 1);
      r + 1
  }

  /** The end of the head does not move when more bytes arrive. */
  lemma FindEndStable(s: Bytes, more: Bytes)
    requires HasEnd(s)
    ensures HasEnd(s + more) && FindEnd(s + more) == FindEnd(s)
  {
    var r := FindEnd(s);
    assert EndsAt(s + more, r);
    var q := FindEnd(s + more);
    assert EndsAt(s, q) || q >= r;
  }

  // ----- parsing one head

  // The three ObservationError texts of the parser.
  datatype Failure = BadHeaders | BadStatusLine | ManyLocations

  datatype Parsed = Malformed(failure: Failure) | Head(status: nat, location: Option<Bytes>)

  /** After removing every CRLF, neither CR nor LF is left. */
  predicate OnlyPairedNewlines(s: Bytes) {
    if s == [] then true
    else if |s| >= 2 && s[0] == CR && s[1] == LF then OnlyPairedNewlines(s[2..])
    else s[0] != CR && s[0] != LF && OnlyPairedNewlines(s[1..])
  }

  /** `head.split(b"\r\n")`. */
  function Lines(s: Bytes): (lines: seq<Bytes>)
    ensures lines != []
  {
    if s == [] then [[]]
    else if |s| >= 2 && s[0] == CR && s[1] == LF then [[]] + Lines(s[2..])
    else
      var rest := Lines(s[1..]);
      [[s[0]] + rest[0]] + rest[1..]
  }

  predicate IsDigit(b: Byte) { 0x30 <= b <= 0x39 }

  predicate ReasonByte(b: Byte) { b == 9 || 0x20 <= b <= 0x7E || b >= 0x80 }

  const HTTP1: Bytes := [0x48, 0x54, 0x54, 0x50, 0x2F, 0x31, 0x2E]

  /** HTTP/1.[01] SP 3DIGIT [SP reason-phrase], with the program's reading of the reason phrase. */
  predicate StatusLine(line: Bytes) {
    && |line| >= 12 && line[..7] == HTTP1 && (line[7] == 0x30 || line[7] == 0x31) && line[8] == 0x20
    && IsDigit(line[9]) && IsDigit(line[10]) && IsDigit(line[11])
    && (|line| == 12 || (line[12] == 0x20 && forall b | b in line[13..] :: ReasonByte(b)))
  }

  function DigitOf(b: Byte): nat
    requires IsDigit(b)
  {
    b as int - 0x30
  }

  function StatusCode(line: Bytes): nat
    requires StatusLine(line)
  {
    100 * DigitOf(line[9]) + 10 * DigitOf(line[10]) + DigitOf(line[11])
  }

  /** RFC 9110 token characters. */
  predicate TokenByte(b: Byte) {
    || IsDigit(b) || 0x41 <= b <= 0x5A || 0x61 <= b <= 0x7A
    || b in {0x21, 0x23, 0x24, 0x25, 0x26, 0x27, 0x2A, 0x2B, 0x2D, 0x2E, 0x5E, 0x5F, 0x60, 0x7C, 0x7E}
  }

  const COLON: Byte := 0x3A

  function FirstColon(line: Bytes): (r: nat)
    ensures r <= |line| && (r < |line| ==> line[r] == COLON) && COLON !in line[..r]
  {
    if line == [] || line[0] == COLON then 0 else
      var r := 1 + FirstColon(line[1..]);
      assert line[..r] == [line[0]] + line[1..][..r - 1];
      r
  }

  predicate FieldLine(line: Bytes) {
    && line != [] && line[0] != 0x20 && line[0] != 9
    && FirstColon(line) < |line| && FirstColon(line) > 0
    && forall b | b in line[..FirstColon(line)] :: TokenByte(b)
  }

  function Lower(b: Byte): Byte {
    if 0x41 <= b <= 0x5A then b + 0x20 else b
  }

  function LowerAll(s: Bytes): (r: Bytes)
    ensures |r| == |s|
  {
    seq(|s|, i requires 0 <= i < |s| => Lower(s[i]))
  }

  const LOCATION: Bytes := [0x6C, 0x6F, 0x63, 0x61, 0x74, 0x69, 0x6F, 0x6E]

  predicate IsLocation(line: Bytes)
    requires FieldLine(line)
  {
    LowerAll(line[..FirstColon(line)]) == LOCATION
  }

  /** ASCII whitespace, as `bytes.strip` removes it. */
  predicate Space(b: Byte) { b == 0x20 || 9 <= b <= 13 }

  function StripLeft(s: Bytes): Bytes {
    if s != [] && Space(s[0]) then StripLeft(s[1..]) else s
  }

  function StripRight(s: Bytes): Bytes {
    if s != [] && Space(s[|s| - 1]) then StripRight(s[..|s| - 1]) else s
  }

  /** The Location values of the header lines, in order; Latin-1 decoding is the identity on code points. */
  function Locations(lines: seq<Bytes>): seq<Bytes>
    requires forall l | l in lines :: FieldLine(l)
  {
    if lines == [] then [] else
      (if IsLocation(lines[0]) then [StripRight(StripLeft(lines[0][FirstColon(lines[0]) + 1..]))] else [])
      + Locations(lines[1..])
  }

  function ParseHead(head: Bytes): Parsed {
    if !OnlyPairedNewlines(head) then Malformed(BadHeaders)
    else
      var lines := Lines(head);
      if !StatusLine(lines[0]) then Malformed(BadStatusLine)
      else if exists l | l in lines[1..] :: !FieldLine(l) then Malformed(BadHeaders)
      else
        var found := Locations(lines[1..]);
        if |found| > 1 then Malformed(ManyLocations)
        else Head(StatusCode(lines[0]), if found == [] then None else Some(found[0]))
  }

  // ----- what a whole byte stream answers

  /** `Broken` stands for a socket error and for the deadline passing before or during a `recv`. */
  datatype Answer = Failed(failure: Failure) | Ended | TooLarge | Broken | Final(status: nat, location: Option<Bytes>)

  /** Section 15.2 of RFC 9110: 1xx is interim; 101 counts as final here. */
  predicate Interim(status: nat) {
    100 <= status <= 199 && status != 101
  }

  /** An interim head, after which the next one is read. */
  predicate Continues(parsed: Parsed) {
    parsed.Head? && Interim(parsed.status)
  }

  /** The answer of the first head that is not interim. */
  function Settles(parsed: Parsed): Answer {
    match parsed
    case Malformed(failure) => Failed(failure)
    case Head(status, location) => Final(status, location)
  }

  /** The first head of `s` that is not interim. */
  ghost function AnswerOf(s: Bytes): Answer {
    if !HasEnd(s) then Ended
    else
      var parsed := ParseHead(s[..FindEnd(s)]);
      if Continues(parsed) then AnswerOf(s[FindEnd(s) + 4..]) else Settles(parsed)
  }

  /** How many bytes of `s` decide its answer; none when the stream ends too early. */
  ghost function DecidedBy(s: Bytes): Option<nat> {
    if !HasEnd(s) then None
    else
      var next := FindEnd(s) + 4;
      if Continues(ParseHead(s[..FindEnd(s)]))
      then match DecidedBy(s[next..]) case None => None case Some(n) => Some(next + n)
      else Some(next)
  }

  lemma {:induction false} DecidedUnlessEnded(s: Bytes)
    ensures DecidedBy(s).None? <==> AnswerOf(s) == Ended
    ensures DecidedBy(s).Some? ==> DecidedBy(s).value <= |s|
    decreases |s|
  {
    hide ParseHead, HasEnd;
    if HasEnd(s) && Continues(ParseHead(s[..FindEnd(s)])) { DecidedUnlessEnded(s[FindEnd(s) + 4..]); }
  }
}
