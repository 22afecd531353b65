/** `_read_http_head`: growing and trimming a buffer under an arbitrary `recv` chunking. */
module HttpRead {
  import opened Basics
  import opened HttpHead

  const MAX_HEADER_BYTES: nat := 65536
  const RECV_BYTES: nat := 4096

  /** How one `recv` ends: with at least one byte while any is left, or with an error or the deadline. */
  datatype Recv = Delivers(atMost: nat) | Breaks

  /** What the network makes of the `recv` at each stream position. */
  type Chunking = nat -> Recv

  ghost predicate Steady(chunking: Chunking) {
    forall p: nat :: chunking(p).Delivers?
  }

  const BYTEWISE: Chunking := _ => Delivers(1)

  function ChunkSize(s: Bytes, pos: nat, chunking: Chunking): (n: nat)
    requires pos < |s| && pos <= MAX_HEADER_BYTES && chunking(pos).Delivers?
    ensures 1 <= n <= RECV_BYTES && pos + n <= |s| && pos + n <= MAX_HEADER_BYTES + 1
  {
    var limit := Smaller(Smaller(RECV_BYTES, MAX_HEADER_BYTES + 1 - pos), |s| - pos);
    if chunking(pos).atMost < 1 then 1 else Smaller(chunking(pos).atMost, limit)
  }

  /** One run of the reader: `response` is s[start..pos] and `received` is pos. */
  ghost function ReadFrom(s: Bytes, start: nat, pos: nat, chunking: Chunking): Answer
    requires start <= pos <= |s| && pos <= MAX_HEADER_BYTES
    decreases |s| - pos, pos - start
  {
    var response := s[start..pos];
    if HasEnd(response) then
      var parsed := ParseHead(response[..FindEnd(response)]);
      if Continues(parsed) then ReadFrom(s, start + FindEnd(response) + 4, pos, chunking) else Settles(parsed)
    else if chunking(pos).Breaks? then Broken
    else if pos == |s| then Ended
    else
      var n := ChunkSize(s, pos, chunking);
      if pos + n > MAX_HEADER_BYTES then TooLarge else ReadFrom(s, start, pos + n, chunking)
  }

  lemma HeadBuffered(s: Bytes, start: nat, pos: nat, chunking: Chunking)
    requires start <= pos <= |s| && pos <= MAX_HEADER_BYTES && HasEnd(s[start..pos])
    ensures start + FindEnd(s[start..pos]) + 4 <= pos
    ensures
      var parsed := ParseHead(s[start..pos][..FindEnd(s[start..pos])]);
      ReadFrom(s, start, pos, chunking) ==
        if Continues(parsed) then ReadFrom(s, start + FindEnd(s[start..pos]) + 4, pos, chunking) else Settles(parsed)
  {
    hide ParseHead, HasEnd;
  }

  lemma HeadUnfinished(s: Bytes, start: nat, pos: nat, chunking: Chunking)
    requires start <= pos <= |s| && pos <= MAX_HEADER_BYTES && !HasEnd(s[start..pos])
    ensures ReadFrom(s, start, pos, chunking) ==
      if chunking(pos).Breaks? then Broken
      else if pos == |s| then Ended
      else if pos + ChunkSize(s, pos, chunking) > MAX_HEADER_BYTES then TooLarge
      else ReadFrom(s, start, pos + ChunkSize(s, pos, chunking), chunking)
  {
    hide ParseHead, HasEnd, FindEnd;
  }

  ghost function Read(s: Bytes, chunking: Chunking): Answer {
    ReadFrom(s, 0, 0, chunking)
  }

  /** The source's two nested loops. The socket delivers `stream` and then closes. */
  method ReadHttpHead(stream: Bytes, chunking: Chunking) returns (answer: Answer)
    ensures answer == Read(stream, chunking)
  {
    hide ParseHead, HasEnd, ReadFrom, ChunkSize;
    var response: Bytes := [];
    var received: nat := 0;
    ghost var start: nat := 0;
    while true
      invariant start <= received <= |stream| && received <= MAX_HEADER_BYTES
      invariant response == stream[start..received]
      invariant ReadFrom(stream, start, received, chunking) == Read(stream, chunking)
      decreases |stream| - start
    {
      while FindEnd(response) == |response|
        invariant start <= received <= |stream| && received <= MAX_HEADER_BYTES
        invariant response == stream[start..received]
        invariant ReadFrom(stream, start, received, chunking) == Read(stream, chunking)
        decreases |stream| - received
      {
        assert !HasEnd(response);
        HeadUnfinished(stream, start, received, chunking);
        if chunking(received).Breaks? { return Broken; }
        if received == |stream| { return Ended; }
        var n := ChunkSize(stream, received, chunking);
        response := response + stream[received..received + n];
        received := received + n;
        if received > MAX_HEADER_BYTES { return TooLarge; }
      }
      HeadBuffered(stream, start, received, chunking);
      var end := FindEnd(response);
      match ParseHead(response[..end]) {
        case Malformed(failure) => return Failed(failure);
        case Head(status, location) =>
          if !Interim(status) { return Final(status, location); }
      }
      response := response[end + 4..];
      start := start + end + 4;
    }
  }

  // ----- chunk independence

  /** The answer of the stream from `start` on, and the absolute position of the byte that decides it. */
  ghost function AnswerAt(s: Bytes, start: nat): Answer
    requires start <= |s|
  {
    AnswerOf(s[start..])
  }

  ghost function DecidedAt(s: Bytes, start: nat): Option<nat>
    requires start <= |s|
  {
    match DecidedBy(s[start..])
    case None => None
    case Some(n) => Some(start + n)
  }

  /** The buffer and the rest of the stream agree on the next head. */
  lemma BufferedEnd(s: Bytes, start: nat, pos: nat)
    requires start <= pos <= |s| && HasEnd(s[start..pos])
    ensures HasEnd(s[start..]) && FindEnd(s[start..]) == FindEnd(s[start..pos])
    ensures s[start..][..FindEnd(s[start..])] == s[start..pos][..FindEnd(s[start..pos])]
    ensures s[start..][FindEnd(s[start..]) + 4..] == s[start + FindEnd(s[start..pos]) + 4..]
  {
    assert s[start..] == s[start..pos] + s[pos..];
    FindEndStable(s[start..pos], s[pos..]);
  }

  lemma FirstHead(s: Bytes)
    requires HasEnd(s)
    ensures
      var next := FindEnd(s) + 4;
      if Continues(ParseHead(s[..FindEnd(s)]))
      then AnswerOf(s) == AnswerOf(s[next..]) && DecidedBy(s) ==
        match DecidedBy(s[next..]) case None => None case Some(n) => Some(next + n)
      else DecidedBy(s) == Some(next)
  {
    hide ParseHead, FindEnd, HasEnd, EndsAt;
  }

  /** A buffered interim head moves the start on; any other buffered head decides the answer. */
  lemma BufferedHead(s: Bytes, start: nat, pos: nat)
    requires start <= pos <= |s| && HasEnd(s[start..pos])
    ensures start + FindEnd(s[start..pos]) + 4 <= pos
    ensures
      var next := start + FindEnd(s[start..pos]) + 4;
      if Continues(ParseHead(s[start..pos][..FindEnd(s[start..pos])]))
      then AnswerAt(s, start) == AnswerAt(s, next) && DecidedAt(s, start) == DecidedAt(s, next)
      else DecidedAt(s, start) == Some(next)
  {
    hide ParseHead, AnswerOf, DecidedBy, FindEnd;
    BufferedEnd(s, start, pos);
    FirstHead(s[start..]);
  }

  /** While the buffer holds no complete head, the answer is not decided yet. */
  lemma NotDecidedYet(s: Bytes, start: nat, pos: nat)
    requires start <= pos <= |s| && !HasEnd(s[start..pos])
    ensures DecidedAt(s, start).Some? ==> DecidedAt(s, start).value > pos
  {
    if HasEnd(s[start..]) {
      var r := FindEnd(s[start..]);
      if start + r + 4 <= pos {
        assert EndsAt(s[start..pos], r);
      }
    }
  }

  /** A run returns the stream's answer, gives up for size or ends in a network error. */
  lemma {:induction false} RunAnswers(s: Bytes, start: nat, pos: nat, chunking: Chunking)
    requires start <= pos <= |s| && pos <= MAX_HEADER_BYTES
    ensures
      var r := ReadFrom(s, start, pos, chunking);
      r == AnswerOf(s[start..]) || (r == TooLarge && |s| > MAX_HEADER_BYTES) || (r == Broken && !Steady(chunking))
    decreases |s| - pos, pos - start
  {
    hide ParseHead, FindEnd, HasEnd, ReadFrom, ChunkSize;
    var response := s[start..pos];
    if HasEnd(response) {
      HeadBuffered(s, start, pos, chunking);
      BufferedEnd(s, start, pos);
      if Continues(ParseHead(response[..FindEnd(response)])) {
        RunAnswers(s, start + FindEnd(response) + 4, pos, chunking);
      }
    } else if chunking(pos).Breaks? {
      HeadUnfinished(s, start, pos, chunking);
    } else if pos < |s| {
      HeadUnfinished(s, start, pos, chunking);
      var n := ChunkSize(s, pos, chunking);
      if pos + n <= MAX_HEADER_BYTES { RunAnswers(s, start, pos + n, chunking); }
    } else {
      HeadUnfinished(s, start, pos, chunking);
      assert s[start..pos] == s[start..];
    }
  }

  /** The last position from which one `recv` cannot pass the limit. */
  const SURELY_READ: nat := MAX_HEADER_BYTES + 1 - RECV_BYTES

  /** A run that never has to give up before the deciding byte returns the stream's answer. */
  lemma {:induction false} DecidedRun(s: Bytes, start: nat, pos: nat, chunking: Chunking)
    requires start <= pos <= |s| && pos <= MAX_HEADER_BYTES && DecidedAt(s, start).Some?
    requires DecidedAt(s, start).value <= SURELY_READ ||
      (DecidedAt(s, start).value <= MAX_HEADER_BYTES && forall p: nat :: chunking(p) == Delivers(1))
    ensures ReadFrom(s, start, pos, chunking) != TooLarge
    decreases |s| - pos, pos - start
  {
    hide ParseHead, FindEnd, HasEnd, AnswerOf, DecidedAt, ReadFrom;
    var response := s[start..pos];
    if HasEnd(response) {
      HeadBuffered(s, start, pos, chunking);
      BufferedHead(s, start, pos);
      if Continues(ParseHead(response[..FindEnd(response)])) {
        DecidedRun(s, start + FindEnd(response) + 4, pos, chunking);
      }
    } else {
      HeadUnfinished(s, start, pos, chunking);
      NotDecidedYet(s, start, pos);
      if pos < |s| && chunking(pos).Delivers? {
        DecidedRun(s, start, pos + ChunkSize(s, pos, chunking), chunking);
      }
    }
  }

  /** A run over a stream beyond the limit that is not decided within it gives up, however it is chunked. */
  lemma {:induction false} UndecidedRun(s: Bytes, start: nat, pos: nat, chunking: Chunking)
    requires start <= pos <= MAX_HEADER_BYTES < |s|
    requires DecidedAt(s, start).Some? ==> DecidedAt(s, start).value > MAX_HEADER_BYTES
    ensures
      var r := ReadFrom(s, start, pos, chunking);
      r == TooLarge || (r == Broken && !Steady(chunking))
    decreases |s| - pos, pos - start
  {
    hide ParseHead, FindEnd, HasEnd, AnswerOf, DecidedAt, ReadFrom;
    var response := s[start..pos];
    if HasEnd(response) {
      HeadBuffered(s, start, pos, chunking);
      BufferedHead(s, start, pos);
      UndecidedRun(s, start + FindEnd(response) + 4, pos, chunking);
    } else if chunking(pos).Breaks? {
      HeadUnfinished(s, start, pos, chunking);
    } else {
      HeadUnfinished(s, start, pos, chunking);
      var n := ChunkSize(s, pos, chunking);
      if pos + n <= MAX_HEADER_BYTES { UndecidedRun(s, start, pos + n, chunking); }
    }
  }

  /** Single bytes up to the last safe position and then the largest possible read. */
  function Overrun(pos: nat): Recv {
    Delivers(if pos < SURELY_READ then 1 else RECV_BYTES)
  }

  lemma {:induction false} OverrunGivesUp(s: Bytes, start: nat, pos: nat)
    requires start <= pos <= SURELY_READ && |s| > MAX_HEADER_BYTES
    requires DecidedAt(s, start).Some? ==> DecidedAt(s, start).value > SURELY_READ
    ensures ReadFrom(s, start, pos, Overrun) == TooLarge
    decreases |s| - pos, pos - start
  {
    hide ParseHead, FindEnd, HasEnd, AnswerOf, DecidedAt, ReadFrom;
    var response := s[start..pos];
    if HasEnd(response) {
      HeadBuffered(s, start, pos, Overrun);
      BufferedHead(s, start, pos);
      OverrunGivesUp(s, start + FindEnd(response) + 4, pos);
    } else {
      HeadUnfinished(s, start, pos, Overrun);
      if pos < SURELY_READ { OverrunGivesUp(s, start, pos + 1); }
    }
  }

  ghost predicate ChunkIndependent(s: Bytes) {
    forall a: Chunking, b: Chunking | Steady(a) && Steady(b) :: Read(s, a) == Read(s, b)
  }

  /** The streams whose size check races with an answer near the limit. */
  ghost predicate NearLimit(s: Bytes) {
    && |s| > MAX_HEADER_BYTES
    && DecidedBy(s).Some?
    && SURELY_READ < DecidedBy(s).value <= MAX_HEADER_BYTES
  }

  lemma FromTheStart(s: Bytes)
    ensures DecidedAt(s, 0) == DecidedBy(s) && AnswerAt(s, 0) == AnswerOf(s) && s[0..] == s
  {
    assert s[0..] == s;
  }

  ghost function Expected(s: Bytes): Answer {
    if |s| <= MAX_HEADER_BYTES || (DecidedBy(s).Some? && DecidedBy(s).value <= SURELY_READ) then AnswerOf(s)
    else TooLarge
  }

  /** The one result of every steady chunking: the stream's own answer, or the size error beyond the limit. */
  lemma AnswerUnlessNearLimit(s: Bytes, chunking: Chunking)
    requires !NearLimit(s)
    ensures
      || Read(s, chunking) == Expected(s)
      || (Read(s, chunking) == Broken && !Steady(chunking))
  {
    hide ReadFrom, AnswerOf, DecidedAt;
    FromTheStart(s);
    if |s| <= MAX_HEADER_BYTES {
      RunAnswers(s, 0, 0, chunking);
    } else if DecidedBy(s).Some? && DecidedBy(s).value <= SURELY_READ {
      DecidedRun(s, 0, 0, chunking);
      RunAnswers(s, 0, 0, chunking);
    } else {
      UndecidedRun(s, 0, 0, chunking);
    }
  }

  /** The two results of a stream near the limit. */
  lemma NearLimitReads(s: Bytes)
    requires NearLimit(s)
    ensures Read(s, BYTEWISE) == AnswerOf(s) != TooLarge && Read(s, Overrun) == TooLarge
  {
    hide ReadFrom, AnswerOf, DecidedAt;
    FromTheStart(s);
    DecidedRun(s, 0, 0, BYTEWISE);
    RunAnswers(s, 0, 0, BYTEWISE);
    OverrunGivesUp(s, 0, 0);
  }

  /** Exactly when the result does not depend on how a network without errors splits the stream. */
  lemma ChunkIndependence(s: Bytes)
    ensures ChunkIndependent(s) <==> !NearLimit(s)
  {
    hide Read, AnswerOf;
    if NearLimit(s) {
      NearLimitReads(s);
      assert Steady(BYTEWISE) && Steady(Overrun);
      assert Read(s, BYTEWISE) != Read(s, Overrun);
    } else {
      forall a: Chunking, b: Chunking | Steady(a) && Steady(b) ensures Read(s, a) == Read(s, b) {
        AnswerUnlessNearLimit(s, a);
        AnswerUnlessNearLimit(s, b);
      }
    }
  }
}
