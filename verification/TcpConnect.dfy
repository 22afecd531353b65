/** Bounded TCP resolution and connection: `resolve_tcp`, `connect_first` and HealthCtl's fair-share deadline. */
module TcpConnect {
  import opened Basics

  const MAX_CANDIDATES: nat := 16
  const ATTEMPT_FLOOR: real := 0.25

  datatype Candidate = Candidate(family: int, socketType: int, protocol: int, address: string, endpoint: string)

  /** The tuple two resolver records must differ in to be two candidates. */
  function Key(c: Candidate): (int, int, int, string) {
    (c.family, c.socketType, c.protocol, c.address)
  }

  // ----- resolution

  datatype Resolution = Resolved(candidates: seq<Candidate>, truncated: bool) | ApiFailure

  function Keys(cs: seq<Candidate>): set<(int, int, int, string)> {
    set c | c in cs :: Key(c)
  }

  /** The candidates of the records before the first malformed one. */
  function WellFormedPrefix<R>(records: seq<R>, make: R -> Option<Candidate>): (cs: seq<Candidate>)
    ensures |cs| <= |records|
  {
    if records == [] || make(records[0]).None? then []
    else [make(records[0]).value] + WellFormedPrefix(records[1..], make)
  }

  /** Each candidate whose key did not occur earlier. */
  function FirstOccurrences(cs: seq<Candidate>): seq<Candidate> {
    if cs == [] then [] else
      var init := cs[..|cs| - 1];
      var last := cs[|cs| - 1];
      if Key(last) in Keys(init) then FirstOccurrences(init) else FirstOccurrences(init) + [last]
  }

  lemma OneMore(cs: seq<Candidate>, c: Candidate)
    ensures Keys(cs + [c]) == Keys(cs) + {Key(c)}
    ensures FirstOccurrences(cs + [c]) == FirstOccurrences(cs) + (if Key(c) in Keys(cs) then [] else [c])
  {
    var more := cs + [c];
    assert more[..|more| - 1] == cs;
    forall k | k in Keys(cs) + {Key(c)} ensures k in Keys(more) {
      if k == Key(c) { assert more[|cs|] == c; } else {
        var x :| x in cs && Key(x) == k;
        assert x in more;
      }
    }
  }

  ghost predicate DistinctlyKeyed(cs: seq<Candidate>) {
    forall i, j | 0 <= i < j < |cs| :: Key(cs[i]) != Key(cs[j])
  }

  lemma OneMoreDistinct(cs: seq<Candidate>, c: Candidate)
    requires DistinctlyKeyed(cs) && Key(c) !in Keys(cs)
    ensures DistinctlyKeyed(cs + [c])
  {
    forall i | 0 <= i < |cs| ensures Key(cs[i]) in Keys(cs) { assert cs[i] in cs; }
  }

  /** Distinct keys, and no key lost. */
  lemma {:induction false} FirstOccurrencesAreDistinct(cs: seq<Candidate>)
    ensures Keys(FirstOccurrences(cs)) == Keys(cs) && DistinctlyKeyed(FirstOccurrences(cs))
  {
    if cs == [] {
    } else {
      hide *;
      var init, last := cs[..|cs| - 1], cs[|cs| - 1];
      assert cs == init + [last];
      var f := FirstOccurrences(init);
      FirstOccurrencesAreDistinct(init);
      OneMore(init, last);
      if Key(last) in Keys(init) {
        assert f + [] == f;
        MemberAddsNothing(init, last);
      } else {
        OneMore(f, last);
        OneMoreDistinct(f, last);
      }
    }
  }

  /** What is kept is in the order of the records, and of each key the first one. */
  lemma {:induction false} FirstIsKept(cs: seq<Candidate>, i: nat)
    ensures Subsequence(FirstOccurrences(cs), cs)
    ensures i < |cs| && Key(cs[i]) !in Keys(cs[..i]) ==> cs[i] in FirstOccurrences(cs)
  {
    if cs == [] {
      assert Places([], FirstOccurrences(cs), cs);
    } else {
      var init, last := cs[..|cs| - 1], cs[|cs| - 1];
      assert cs == init + [last];
      FirstIsKept(init, i);
      SubsequenceSnoc(FirstOccurrences(init), init, last);
      hide Subsequence, Keys;
      if i < |init| { assert cs[..i] == init[..i]; } else { assert i == |init| ==> cs[..i] == init; }
    }
  }

  lemma MemberAddsNothing(cs: seq<Candidate>, c: Candidate)
    requires Key(c) in Keys(cs)
    ensures Keys(cs) + {Key(c)} == Keys(cs)
  {}

  lemma {:induction false} FirstOccurrencesPrefix(cs: seq<Candidate>, n: nat)
    requires n <= |cs|
    ensures FirstOccurrences(cs[..n]) <= FirstOccurrences(cs)
    decreases |cs| - n
  {
    if n < |cs| {
      FirstOccurrencesPrefix(cs, n + 1);
      assert cs[..n + 1][..n] == cs[..n];
    } else {
      assert cs[..n] == cs;
    }
  }

  lemma {:induction false} PrefixIsWellFormed<R>(records: seq<R>, make: R -> Option<Candidate>, n: nat)
    requires n <= |records| && forall i | 0 <= i < n :: make(records[i]).Some?
    ensures n <= |WellFormedPrefix(records, make)|
    ensures forall i | 0 <= i < n :: WellFormedPrefix(records, make)[i] == make(records[i]).value
    ensures n < |records| && make(records[n]).None? ==> |WellFormedPrefix(records, make)| == n
  {
    if n > 0 {
      assert forall i | 0 <= i < n - 1 :: records[1..][i] == records[i + 1];
      PrefixIsWellFormed(records[1..], make, n - 1);
    }
  }

  lemma NothingSeen()
    ensures FirstOccurrences([]) == [] && Keys([]) == {}
  {}

  /** The first MAX_CANDIDATES distinct candidates, and whether there were more. */
  function ExpectedResolution<R>(records: seq<R>, make: R -> Option<Candidate>): Resolution {
    var prefix := WellFormedPrefix(records, make);
    var distinct := FirstOccurrences(prefix);
    if |distinct| > MAX_CANDIDATES then Resolved(distinct[..MAX_CANDIDATES], true)
    else if |prefix| < |records| then ApiFailure
    else Resolved(distinct, false)
  }

  /** The record loop of `resolve_tcp`; `make` is `_make_candidate`, None its NetworkAPIError. */
  method ResolveTcp<R>(records: seq<R>, make: R -> Option<Candidate>) returns (r: Resolution)
    ensures r == ExpectedResolution(records, make)
  {
    hide FirstOccurrences, Keys;
    ghost var prefix := WellFormedPrefix(records, make);
    NothingSeen();
    var candidates: seq<Candidate> := [];
    var seen := {};
    for i := 0 to |records|
      invariant forall j | 0 <= j < i :: make(records[j]).Some?
      invariant i <= |prefix| && candidates == FirstOccurrences(prefix[..i])
      invariant seen == Keys(prefix[..i]) && |candidates| <= MAX_CANDIDATES
    {
      PrefixIsWellFormed(records, make, i);
      var made := make(records[i]);
      if made.None? {
        assert prefix[..i] == prefix;
        return ApiFailure;
      }
      PrefixIsWellFormed(records, make, i + 1);
      assert prefix[..i + 1] == prefix[..i] + [made.value];
      OneMore(prefix[..i], made.value);
      if Key(made.value) in seen { continue; }
      if |candidates| == MAX_CANDIDATES {
        FirstOccurrencesPrefix(prefix, i + 1);
        return Resolved(candidates, true);
      }
      seen := seen + {Key(made.value)};
      candidates := candidates + [made.value];
    }
    assert prefix[..|records|] == prefix;
    return Resolved(candidates, false);
  }

  // ----- connecting

  /** What one socket call sequence does: no socket, no timeout set, or a connect that takes some time. */
  datatype Event =
    | NoSocket(errno: int)
    | TimeoutRejected
    | Connects(elapsed: real)
    | Refuses(elapsed: real, errno: int)

  datatype Outcome = SocketUnavailable(errno: int) | Connected | ConnectFailed(errno: int)

  datatype Attempt = Attempt(candidate: Candidate, outcome: Outcome, duration: real)

  datatype Connection =
    | Open(socket: nat, attempts: seq<Attempt>)
    | Unreachable(attempts: seq<Attempt>)
    | DeadlinePassed
    | NetworkApiError
    | MissingLimit

  function Minimum(a: real, b: real): real { if a <= b then a else b }
  function Maximum(a: real, b: real): real { if a >= b then a else b }

  function ElapsedOf(e: Event): real {
    match e
    case Connects(t) => t
    case Refuses(t, _) => t
    case _ => 0.0
  }

  /** A network in which no connect outlasts the timeout it was given. */
  ghost predicate Punctual(script: (nat, real) -> Event) {
    forall n: nat, limit: real | limit > 0.0 :: 0.0 <= ElapsedOf(script(n, limit)) <= limit
  }

  lemma ElapsesWithin(script: (nat, real) -> Event, n: nat, limit: real)
    requires Punctual(script) && limit > 0.0
    ensures 0.0 <= ElapsedOf(script(n, limit)) <= limit
  {}

  /** The clock and the sockets of the process; time passes only inside connects. */
  class Host {
    const script: (nat, real) -> Event
    var now: real
    var calls: nat
    var open: set<nat>

    constructor (script: (nat, real) -> Event, now: real)
      ensures this.script == script && this.now == now && open == {}
    {
      this.script, this.now, calls, open := script, now, 0, {};
    }

    ghost predicate Fresh()
      reads this
    {
      forall s | s in open :: s < calls
    }
  }

  // ----- what attempts say about the calls behind them

  /** An attempt reports the event of its call. */
  predicate Reports(e: Event, a: Attempt) {
    match a.outcome
    case SocketUnavailable(errno) => e == NoSocket(errno) && a.duration == 0.0
    case Connected => e == Connects(a.duration)
    case ConnectFailed(errno) => e == Refuses(a.duration, errno)
  }

  function Elapsed(attempts: seq<Attempt>): real {
    if attempts == [] then 0.0 else Elapsed(attempts[..|attempts| - 1]) + attempts[|attempts| - 1].duration
  }

  /** The sequence of calls a connection loop makes: where it starts and the timeout each call is given. */
  datatype Course = Course(
    script: (nat, real) -> Event,
    call: nat,
    start: real,
    deadline: Option<real>,
    limit: (nat, real) -> real,
    candidates: seq<Candidate>)

  /** The event of the call for candidate `k`, made after the given attempts. */
  function EventAt(course: Course, k: nat, before: seq<Attempt>): Event {
    course.script(course.call + k, course.limit(k, course.start + Elapsed(before)))
  }

  predicate InTime(course: Course, before: seq<Attempt>) {
    course.deadline.Some? ==> course.start + Elapsed(before) < course.deadline.value
  }

  /** One attempt per candidate tried, in order and in time, each with the event of its call. */
  ghost predicate Trail(course: Course, attempts: seq<Attempt>) {
    && |attempts| <= |course.candidates|
    && forall k | 0 <= k < |attempts| :: TrailAt(course, attempts, k)
  }

  predicate TrailAt(course: Course, attempts: seq<Attempt>, k: nat)
    requires k < |attempts| <= |course.candidates|
  {
    && attempts[k].candidate == course.candidates[k]
    && InTime(course, attempts[..k])
    && Reports(EventAt(course, k, attempts[..k]), attempts[k])
  }

  predicate AllRefused(attempts: seq<Attempt>) {
    forall a | a in attempts :: a.outcome != Connected
  }

  /** Some call connects in time, and all calls before it were refused. */
  ghost predicate Arrives(course: Course, attempts: seq<Attempt>) {
    && Trail(course, attempts)
    && attempts != [] && attempts[|attempts| - 1].outcome == Connected
    && AllRefused(attempts[..|attempts| - 1])
  }

  ghost predicate CanArrive(course: Course) {
    exists attempts :: Arrives(course, attempts)
  }

  /** Nothing connected and the next call is not made, or its timeout is not accepted. */
  ghost predicate GivesUp(course: Course, attempts: seq<Attempt>) {
    && Trail(course, attempts) && AllRefused(attempts)
    && (|attempts| < |course.candidates| && InTime(course, attempts) ==>
          EventAt(course, |attempts|, attempts) == TimeoutRejected)
  }

  lemma TrailSnoc(course: Course, attempts: seq<Attempt>, a: Attempt)
    requires Trail(course, attempts) && |attempts| < |course.candidates| && InTime(course, attempts)
    requires a.candidate == course.candidates[|attempts|] && Reports(EventAt(course, |attempts|, attempts), a)
    ensures Trail(course, attempts + [a])
    ensures Elapsed(attempts + [a]) == Elapsed(attempts) + a.duration
    ensures a.outcome == Connected && AllRefused(attempts) ==> Arrives(course, attempts + [a])
  {
    hide EventAt, InTime, Reports;
    var more := attempts + [a];
    assert more[..|attempts|] == attempts;
    forall k | 0 <= k < |more| ensures TrailAt(course, more, k) {
      if k < |attempts| {
        assert TrailAt(course, attempts, k);
        assert more[..k] == attempts[..k];
      }
    }
  }

  lemma NoAttempts(course: Course)
    ensures Trail(course, []) && Elapsed([]) == 0.0
  {}

  /** The calls decide the attempts: of two trails one continues the other. */
  lemma {:induction false} OneTrail(course: Course, a: seq<Attempt>, b: seq<Attempt>, n: nat)
    requires Trail(course, a) && Trail(course, b) && n <= |a| && n <= |b|
    ensures a[..n] == b[..n]
  {
    if n > 0 {
      OneTrail(course, a, b, n - 1);
      assert TrailAt(course, a, n - 1) && TrailAt(course, b, n - 1);
      assert a[n - 1] == b[n - 1];
      assert a[..n] == a[..n - 1] + [a[n - 1]] && b[..n] == b[..n - 1] + [b[n - 1]];
    }
  }

  lemma SameAttempt(course: Course, a: seq<Attempt>, b: seq<Attempt>, k: nat)
    requires Trail(course, a) && Trail(course, b) && k < |a| && k < |b|
    ensures a[k] == b[k]
  {
    hide *;
    OneTrail(course, a, b, k + 1);
    assert a[..k + 1][k] == b[..k + 1][k];
  }

  /** A trail that goes on was in time, and its next call took the timeout. */
  lemma NextCall(course: Course, a: seq<Attempt>, b: seq<Attempt>)
    requires Trail(course, a) && Trail(course, b) && |a| < |b|
    ensures |a| < |course.candidates| && InTime(course, a) && EventAt(course, |a|, a) != TimeoutRejected
  {
    OneTrail(course, a, b, |a|);
    hide EventAt, InTime;
    assert a[..|a|] == a;
    assert TrailAt(course, b, |a|);
  }

  lemma GivingUpMeans(course: Course, tried: seq<Attempt>)
    requires GivesUp(course, tried)
    ensures Trail(course, tried) && forall k | 0 <= k < |tried| :: tried[k].outcome != Connected
    ensures |tried| < |course.candidates| && InTime(course, tried) ==>
      EventAt(course, |tried|, tried) == TimeoutRejected
  {
    forall k | 0 <= k < |tried| ensures tried[k].outcome != Connected { assert tried[k] in tried; }
  }

  /** A loop that gives up was not on the way to a connection. */
  lemma GivingUpIsRight(course: Course, tried: seq<Attempt>, attempts: seq<Attempt>)
    requires GivesUp(course, tried)
    ensures !Arrives(course, attempts)
  {
    hide *;
    GivingUpMeans(course, tried);
    if Arrives(course, attempts) {
      ArrivalIsTrail(course, attempts);
      if |attempts| <= |tried| {
        SameAttempt(course, attempts, tried, |attempts| - 1);
      } else {
        NextCall(course, tried, attempts);
      }
    }
  }

  lemma ArrivalIsTrail(course: Course, attempts: seq<Attempt>)
    requires Arrives(course, attempts)
    ensures Trail(course, attempts) && attempts != [] && CanArrive(course)
    ensures attempts[|attempts| - 1].outcome == Connected
    ensures forall k | 0 <= k < |attempts| - 1 :: attempts[k].outcome != Connected
  {
    forall k | 0 <= k < |attempts| - 1 ensures attempts[k].outcome != Connected {
      assert attempts[k] in attempts[..|attempts| - 1];
    }
  }

  lemma NotLonger(course: Course, a: seq<Attempt>, b: seq<Attempt>)
    requires Arrives(course, a) && Arrives(course, b)
    ensures |b| <= |a|
  {
    hide *;
    ArrivalIsTrail(course, a);
    ArrivalIsTrail(course, b);
    if |a| < |b| {
      SameAttempt(course, a, b, |a| - 1);
    }
  }

  /** Two ways to a connection are the same. */
  lemma OneArrival(course: Course, a: seq<Attempt>, b: seq<Attempt>)
    requires Arrives(course, a) && Arrives(course, b)
    ensures a == b
  {
    NotLonger(course, a, b);
    NotLonger(course, b, a);
    ArrivalIsTrail(course, a);
    ArrivalIsTrail(course, b);
    hide *;
    OneTrail(course, a, b, |a|);
    assert a[..|a|] == a && b[..|b|] == b;
  }

  /** Calls made in time get some time, and none beyond the deadline. */
  ghost predicate LimitsAreSane(course: Course) {
    forall k: nat, now: real | k < |course.candidates| && (course.deadline.Some? ==> now < course.deadline.value) ::
      0.0 < course.limit(k, now) && (course.deadline.Some? ==> now + course.limit(k, now) <= course.deadline.value)
  }

  /** With a punctual network time does not run back, and no attempt ends after the deadline. */
  lemma {:induction false} PunctualTrail(course: Course, attempts: seq<Attempt>)
    requires Trail(course, attempts) && Punctual(course.script) && LimitsAreSane(course)
    ensures Elapsed(attempts) >= 0.0
    ensures course.deadline.Some? && course.start <= course.deadline.value ==>
      course.start + Elapsed(attempts) <= course.deadline.value
    ensures |attempts| == 1 ==> Elapsed(attempts) <= course.limit(0, course.start)
  {
    if attempts != [] {
      var init, last := attempts[..|attempts| - 1], attempts[|attempts| - 1];
      TrailInit(course, attempts);
      PunctualTrail(course, init);
      var now := course.start + Elapsed(init);
      hide Trail, Punctual;
      ElapsesWithin(course.script, course.call + |init|, course.limit(|init|, now));
      if |attempts| == 1 { assert init == []; }
    }
  }

  lemma TrailInit(course: Course, attempts: seq<Attempt>)
    requires Trail(course, attempts) && attempts != []
    ensures
      var init, last := attempts[..|attempts| - 1], attempts[|attempts| - 1];
      && Trail(course, init) && InTime(course, init) && |init| < |course.candidates|
      && last.duration == ElapsedOf(EventAt(course, |init|, init))
  {
    var init, last := attempts[..|attempts| - 1], attempts[|attempts| - 1];
    forall k | 0 <= k < |init| ensures TrailAt(course, init, k) {
      assert TrailAt(course, attempts, k);
      assert init[..k] == attempts[..k];
    }
    assert TrailAt(course, attempts, |init|);
  }

  /** The timeout `connect_first` gives a call made at some time. */
  function LimitAt(timeout: Option<real>, deadline: Option<real>, now: real): (limit: real)
    ensures timeout.Some? ==> limit <= timeout.value
    ensures deadline.Some? ==> limit <= deadline.value - now
    ensures timeout.Some? || deadline.Some? ==> timeout == Some(limit) || deadline == Some(now + limit)
  {
    match (timeout, deadline)
    case (None, None) => 0.0
    case (Some(t), None) => t
    case (None, Some(d)) => d - now
    case (Some(t), Some(d)) => Minimum(t, d - now)
  }

  ghost function CourseOf(host: Host, candidates: seq<Candidate>, timeout: Option<real>, deadline: Option<real>): Course
    reads host
  {
    Course(host.script, host.calls, host.now, deadline, (_, now) => LimitAt(timeout, deadline, now), candidates)
  }

  /**
   * `connect_first`: every socket it made is closed again, except the connected one it returns. `tried` is every
   * attempt made; a socket is returned exactly when some call connects in time after only refusals.
   */
  method ConnectFirst(host: Host, candidates: seq<Candidate>, timeout: Option<real>, deadline: Option<real>)
    returns (r: Connection, ghost tried: seq<Attempt>)
    requires host.Fresh() && (timeout.Some? ==> timeout.value > 0.0)
    modifies host`now, host`calls, host`open
    ensures host.Fresh()
    ensures r.MissingLimit? <==> timeout.None? && deadline.None?
    ensures r.Open? ==> r.socket !in old(host.open) && host.open == old(host.open) + {r.socket}
    ensures !r.Open? ==> host.open == old(host.open)
    ensures r.Open? || r.Unreachable? ==> r.attempts == tried
    ensures r.Open? ==> Arrives(old(CourseOf(host, candidates, timeout, deadline)), tried)
    ensures r.Open? ==> r.socket == old(host.calls) + |tried| - 1
    ensures r.Unreachable? ==> |tried| == |candidates|
    ensures r.DeadlinePassed? ==> |tried| < |candidates| && deadline.Some? && host.now >= deadline.value
    ensures r.NetworkApiError? ==> |tried| < |candidates|
    ensures r.NetworkApiError? ==>
      EventAt(old(CourseOf(host, candidates, timeout, deadline)), |tried|, tried) == TimeoutRejected
    ensures !r.Open? && !r.MissingLimit? ==> GivesUp(old(CourseOf(host, candidates, timeout, deadline)), tried)
    ensures !r.MissingLimit? ==>
      (r.Open? <==> CanArrive(old(CourseOf(host, candidates, timeout, deadline))))
    ensures !r.MissingLimit? ==> host.now == old(host.now) + Elapsed(tried)
    ensures host.calls == old(host.calls) + |tried| + if r.NetworkApiError? then 1 else 0
    ensures Punctual(host.script) ==> host.now >= old(host.now)
    ensures Punctual(host.script) && deadline.Some? && old(host.now) <= deadline.value ==> host.now <= deadline.value
    ensures Punctual(host.script) && |candidates| == 1 && timeout.Some? ==> host.now <= old(host.now) + timeout.value
  {
    hide Punctual, Trail, Arrives, CanArrive, GivesUp, EventAt;
    tried := [];
    if timeout.None? && deadline.None? { return MissingLimit, tried; }
    ghost var course := CourseOf(host, candidates, timeout, deadline);
    r, tried := TryEach(host, candidates, timeout, deadline, course);
    if r.Open? { ArrivalIsTrail(course, tried); } else { GivingUpMeans(course, tried); }
    if Punctual(host.script) { PunctualTrail(course, tried); }
  }

  /** The loop of `connect_first`. */
  method TryEach(host: Host, candidates: seq<Candidate>, timeout: Option<real>, deadline: Option<real>,
                 ghost course: Course)
    returns (r: Connection, ghost tried: seq<Attempt>)
    requires host.Fresh() && (timeout.Some? || deadline.Some?)
    requires course == CourseOf(host, candidates, timeout, deadline)
    modifies host`now, host`calls, host`open
    ensures host.Fresh() && !r.MissingLimit?
    ensures r.Open? ==> r.socket !in old(host.open) && host.open == old(host.open) + {r.socket}
    ensures !r.Open? ==> host.open == old(host.open)
    ensures r.Open? || r.Unreachable? ==> r.attempts == tried
    ensures r.Open? ==> Arrives(course, tried) && r.socket == course.call + |tried| - 1
    ensures r.Unreachable? ==> |tried| == |candidates|
    ensures r.DeadlinePassed? ==> |tried| < |candidates| && deadline.Some? && host.now >= deadline.value
    ensures r.NetworkApiError? ==> |tried| < |candidates| && EventAt(course, |tried|, tried) == TimeoutRejected
    ensures !r.Open? ==> GivesUp(course, tried)
    ensures r.Open? <==> CanArrive(course)
    ensures host.now == course.start + Elapsed(tried)
    ensures host.calls == course.call + |tried| + if r.NetworkApiError? then 1 else 0
  {
    hide Trail, Arrives, CanArrive, GivesUp, EventAt;
    tried := [];
    var attempts: seq<Attempt> := [];
    NoAttempts(course);
    for i := 0 to |candidates|
      invariant host.Fresh() && host.open == old(host.open) && host.calls == old(host.calls) + i
      invariant |attempts| == i && Trail(course, attempts) && AllRefused(attempts) && tried == attempts
      invariant host.now == old(host.now) + Elapsed(attempts)
    {
      var limit := timeout;
      if deadline.Some? {
        var remaining := deadline.value - host.now;
        if remaining <= 0.0 {
          NoArrival(course, tried);
          return DeadlinePassed, tried;
        }
        limit := Some(if limit.None? then remaining else Minimum(limit.value, remaining));
      }
      var socket := host.calls;
      var event := host.script(socket, limit.value);
      EventIs(course, attempts, host.now, limit.value);
      if !event.TimeoutRejected? { CallMade(course, attempts, event); }
      hide AllRefused, Elapsed, LimitAt, InTime, CourseOf;
      host.calls := host.calls + 1;
      if event.NoSocket? {
        attempts := attempts + [Attempt(candidates[i], SocketUnavailable(event.errno), 0.0)];
        tried := attempts;
        continue;
      }
      host.open := host.open + {socket};
      if event.TimeoutRejected? {
        host.open := host.open - {socket};
        NoArrival(course, tried);
        return NetworkApiError, tried;
      }
      host.now := host.now + event.elapsed;
      if event.Connects? {
        attempts := attempts + [Attempt(candidates[i], Connected, event.elapsed)];
        return Open(socket, attempts), attempts;
      }
      host.open := host.open - {socket};
      attempts := attempts + [Attempt(candidates[i], ConnectFailed(event.errno), event.elapsed)];
      tried := attempts;
    }
    NoArrival(course, tried);
    return Unreachable(attempts), tried;
  }

  /** The attempt an event amounts to. */
  ghost function AttemptOf(c: Candidate, e: Event): Attempt
    requires !e.TimeoutRejected?
  {
    match e
    case NoSocket(errno) => Attempt(c, SocketUnavailable(errno), 0.0)
    case Connects(t) => Attempt(c, Connected, t)
    case Refuses(t, errno) => Attempt(c, ConnectFailed(errno), t)
  }

  /** The next call adds its attempt to the trail. */
  lemma CallMade(course: Course, attempts: seq<Attempt>, e: Event)
    requires Trail(course, attempts) && AllRefused(attempts) && |attempts| < |course.candidates|
    requires InTime(course, attempts) && EventAt(course, |attempts|, attempts) == e && !e.TimeoutRejected?
    ensures
      var more := attempts + [AttemptOf(course.candidates[|attempts|], e)];
      && Trail(course, more) && Elapsed(more) == Elapsed(attempts) + ElapsedOf(e)
      && (if e.Connects? then Arrives(course, more) && CanArrive(course) else AllRefused(more))
  {
    var a := AttemptOf(course.candidates[|attempts|], e);
    hide Trail, EventAt, InTime;
    TrailSnoc(course, attempts, a);
  }

  lemma EventIs(course: Course, attempts: seq<Attempt>, now: real, limit: real)
    requires now == course.start + Elapsed(attempts) && limit == course.limit(|attempts|, now)
    ensures EventAt(course, |attempts|, attempts) == course.script(course.call + |attempts|, limit)
  {}

  lemma NoArrival(course: Course, tried: seq<Attempt>)
    requires Trail(course, tried) && AllRefused(tried)
    requires |tried| < |course.candidates| && InTime(course, tried) ==>
      EventAt(course, |tried|, tried) == TimeoutRejected
    ensures GivesUp(course, tried) && !CanArrive(course)
  {
    hide Arrives, Trail;
    forall t ensures !Arrives(course, t) { GivingUpIsRight(course, tried, t); }
  }

  // ----- HealthCtl's shares of one deadline

  datatype Target =
    | Reached(socket: nat, endpoint: string)
    | NoSocketAtAll(attempts: seq<Attempt>)
    | NotReached(attempts: seq<Attempt>)
    | ApiError
    | NoTimeLeft
    | NoSuchName
    | LookupFailed

  predicate AllUnavailable(attempts: seq<Attempt>) {
    forall a | a in attempts :: a.outcome.SocketUnavailable?
  }

  /** Attempts already made plus those the remaining time still guarantees. */
  function Guaranteed(tried: nat, total: nat, remaining: real): real
    requires tried <= total
  {
    tried as real + Minimum((total - tried) as real, remaining / ATTEMPT_FLOOR)
  }

  /** The share one candidate is given of the time left. */
  function Share(remaining: real, candidatesLeft: nat): (share: real)
    requires candidatesLeft > 0
    ensures share <= remaining && (remaining > 0.0 ==> share > 0.0)
  {
    Minimum(remaining, Maximum(remaining / candidatesLeft as real, ATTEMPT_FLOOR))
  }

  /** An equal part of the time left, but at least the floor and never more than is left. */
  lemma ShareIsFair(remaining: real, candidatesLeft: nat)
    requires candidatesLeft > 0 && remaining > 0.0
    ensures
      var share, part := Share(remaining, candidatesLeft), remaining / candidatesLeft as real;
      && part <= share <= remaining && Minimum(remaining, ATTEMPT_FLOOR) <= share
      && (share == part || share == ATTEMPT_FLOOR || share == remaining < ATTEMPT_FLOOR)
  {
    var left := candidatesLeft as real;
    var part := remaining / left;
    assert remaining == part * left && left >= 1.0;
    assert part * left >= part * 1.0;
  }

  lemma ShareKeepsGuarantee(tried: nat, total: nat, remaining: real, after: real)
    requires tried < total && remaining > 0.0
    requires after >= remaining - Share(remaining, total - tried)
    ensures Guaranteed(tried + 1, total, after) >= Guaranteed(tried, total, remaining)
  {
    var left := (total - tried) as real;
    var share := Share(remaining, total - tried);
    if share <= ATTEMPT_FLOOR {
      assert after / ATTEMPT_FLOOR >= remaining / ATTEMPT_FLOOR - 1.0;
    } else {
      assert remaining / left > ATTEMPT_FLOOR;
      SplitShare(remaining, left);
    }
  }

  lemma GuaranteeUsedUp(tried: nat, total: nat, initially: real, remaining: real)
    requires tried <= total && (tried == total || remaining <= 0.0)
    ensures Guaranteed(tried, total, remaining) >= Guaranteed(0, total, initially) ==>
      tried as real >= Minimum(total as real, initially / ATTEMPT_FLOOR)
  {}

  lemma SplitShare(remaining: real, left: real)
    requires left >= 1.0 && remaining / left > ATTEMPT_FLOOR
    ensures remaining > left * ATTEMPT_FLOOR
    ensures remaining - remaining / left >= (left - 1.0) * ATTEMPT_FLOOR
  {
    var q := remaining / left;
    assert remaining == q * left;
    assert q * left >= ATTEMPT_FLOOR * left;
    assert q * left - q == q * (left - 1.0);
    assert q * (left - 1.0) >= ATTEMPT_FLOOR * (left - 1.0);
  }

  ghost function ShareCourse(host: Host, candidates: seq<Candidate>, deadline: real, start: real): Course
    reads host
  {
    Course(host.script, host.calls, start, Some(deadline), ShareLimit(deadline, |candidates|), candidates)
  }

  /** Each candidate is given its share of the time left. */
  ghost function ShareLimit(deadline: real, total: nat): (nat, real) -> real {
    (k, now) => if k < total then Share(deadline - now, total - k) else 0.0
  }

  /** `connect_candidates` for one candidate; the call it makes is the next one of the candidate loop. */
  method ConnectOne(host: Host, candidate: Candidate, budget: real, deadline: real, ghost course: Course,
                    ghost before: seq<Attempt>)
    returns (r: Connection, ghost tried: seq<Attempt>)
    requires host.Fresh() && 0.0 < budget <= deadline - host.now
    requires course.script == host.script && course.call + |before| == host.calls && course.deadline == Some(deadline)
    requires host.now == course.start + Elapsed(before) && course.limit(|before|, host.now) == budget
    requires |before| < |course.candidates| && course.candidates[|before|] == candidate
    requires Trail(course, before) && AllRefused(before)
    modifies host`now, host`calls, host`open
    ensures host.Fresh() && (r.Open? || r.Unreachable? || r.NetworkApiError?)
    ensures r.Open? ==> r.socket !in old(host.open) && host.open == old(host.open) + {r.socket}
    ensures !r.Open? ==> host.open == old(host.open)
    ensures tried == before + if r.NetworkApiError? then [] else r.attempts
    ensures r.NetworkApiError? ==> GivesUp(course, tried)
    ensures r.Open? ==> |r.attempts| == 1 && Arrives(course, tried)
    ensures r.Unreachable? ==> |r.attempts| == 1 && Trail(course, tried) && AllRefused(tried)
    ensures host.now == course.start + Elapsed(tried)
    ensures !r.NetworkApiError? ==> host.calls == course.call + |tried|
    ensures r.Open? ==> r.socket == course.call + |tried| - 1
    ensures Punctual(host.script) ==> old(host.now) <= host.now <= old(host.now) + budget
    ensures Punctual(host.script) ==> host.now <= deadline
  {
    hide Punctual, Trail, Arrives, CanArrive;
    ghost var own := CourseOf(host, [candidate], Some(budget), Some(deadline));
    ghost var now := host.now;
    ghost var attempts;
    r, attempts := ConnectFirst(host, [candidate], Some(budget), Some(deadline));
    tried := before + attempts;
    SameEvent(course, before, own, now, budget);
    if r.NetworkApiError? {
      assert tried == before;
      NoArrival(course, before);
    } else {
      if r.Open? { ArrivalIsTrail(own, attempts); }
      OwnAttempt(own, attempts);
      TrailSnoc(course, before, attempts[0]);
      assert attempts == [attempts[0]];
    }
  }

  lemma SameEvent(course: Course, before: seq<Attempt>, own: Course, now: real, budget: real)
    requires now == course.start + Elapsed(before) == own.start && own.call == course.call + |before|
    requires own.script == course.script
    requires own.limit(0, now) == budget == course.limit(|before|, now)
    ensures EventAt(own, 0, []) == EventAt(course, |before|, before)
  {}

  lemma OwnAttempt(own: Course, attempts: seq<Attempt>)
    requires |own.candidates| == 1 && Trail(own, attempts) && attempts != []
    ensures |attempts| == 1 && attempts[0].candidate == own.candidates[0]
    ensures Reports(EventAt(own, 0, []), attempts[0]) && Elapsed(attempts) == attempts[0].duration
  {
    assert TrailAt(own, attempts, 0) && attempts[..0] == [];
  }

  /**
   * The candidate loop of `_connect_tcp_target`: a candidate is reached exactly when its call, given its share of the
   * time left, connects in time after only refusals. With a punctual network no attempt ends after the deadline, and
   * when no candidate connects at least min(n, remaining / 0.25) of the n candidates were tried.
   */
  method ConnectEach(host: Host, candidates: seq<Candidate>, deadline: real)
    returns (r: Target, ghost tried: seq<Attempt>)
    requires host.Fresh()
    modifies host`now, host`calls, host`open
    ensures host.Fresh() && (r.Reached? || r.NoSocketAtAll? || r.NotReached? || r.ApiError?)
    ensures r.Reached? ==> host.open == old(host.open) + {r.socket} && r.socket !in old(host.open)
    ensures !r.Reached? ==> host.open == old(host.open)
    ensures r.Reached? <==> CanArrive(old(ShareCourse(host, candidates, deadline, host.now)))
    ensures r.Reached? ==> Arrives(old(ShareCourse(host, candidates, deadline, host.now)), tried)
    ensures r.Reached? ==> 0 < |tried| <= |candidates| && r.endpoint == candidates[|tried| - 1].endpoint
    ensures r.Reached? ==> r.socket == old(host.calls) + |tried| - 1
    ensures !r.Reached? ==> GivesUp(old(ShareCourse(host, candidates, deadline, host.now)), tried)
    ensures r.NotReached? || r.NoSocketAtAll? ==> r.attempts == tried
    ensures r.NoSocketAtAll? ==> |tried| == |candidates| && AllUnavailable(tried)
    ensures r.NotReached? ==> !(|tried| == |candidates| && AllUnavailable(tried))
    ensures host.now == old(host.now) + Elapsed(tried)
    ensures Punctual(host.script) && old(host.now) <= deadline ==> old(host.now) <= host.now <= deadline
    ensures Punctual(host.script) && r.NotReached? ==>
      |tried| as real >= Minimum(|candidates| as real, (deadline - old(host.now)) / ATTEMPT_FLOOR)
  {
    hide Punctual, Guaranteed, Trail, Arrives, CanArrive, GivesUp, EventAt;
    ghost var course := ShareCourse(host, candidates, deadline, host.now);
    r, tried := TryShares(host, candidates, deadline, course);
    if r.Reached? { ArrivalIsTrail(course, tried); } else { GivingUpMeans(course, tried); }
    if Punctual(host.script) {
      SharesAreSane(course, deadline);
      PunctualTrail(course, tried);
      TrailKeepsGuarantee(course, tried, deadline);
      if r.NotReached? { GuaranteeUsedUp(|tried|, |candidates|, deadline - course.start, deadline - host.now); }
    }
  }

  lemma SharesAreSane(course: Course, deadline: real)
    requires course.deadline == Some(deadline) && course.limit == ShareLimit(deadline, |course.candidates|)
    ensures LimitsAreSane(course)
  {
    forall k: nat, now: real | k < |course.candidates| && now < deadline
      ensures 0.0 < course.limit(k, now) && now + course.limit(k, now) <= deadline
    {
      assert course.limit(k, now) == Share(deadline - now, |course.candidates| - k);
    }
  }

  /** However many shares were spent, the guaranteed number of attempts did not fall. */
  lemma {:induction false} TrailKeepsGuarantee(course: Course, attempts: seq<Attempt>, deadline: real)
    requires Trail(course, attempts) && Punctual(course.script)
    requires course.deadline == Some(deadline) && course.limit == ShareLimit(deadline, |course.candidates|)
    ensures
      var n := |course.candidates|;
      |attempts| <= n && Guaranteed(|attempts|, n, deadline - course.start - Elapsed(attempts)) >=
        Guaranteed(0, n, deadline - course.start)
  {
    if attempts != [] {
      var init, last := attempts[..|attempts| - 1], attempts[|attempts| - 1];
      TrailInit(course, attempts);
      TrailKeepsGuarantee(course, init, deadline);
      var n, now := |course.candidates|, course.start + Elapsed(init);
      assert course.limit(|init|, now) == Share(deadline - now, n - |init|);
      hide Trail, Punctual, Guaranteed;
      ElapsesWithin(course.script, course.call + |init|, course.limit(|init|, now));
      ShareKeepsGuarantee(|init|, n, deadline - now, deadline - now - last.duration);
    }
  }

  /** The loop over the candidates and what is made of its attempts. */
  method TryShares(host: Host, candidates: seq<Candidate>, deadline: real, ghost course: Course)
    returns (r: Target, ghost tried: seq<Attempt>)
    requires host.Fresh() && course == ShareCourse(host, candidates, deadline, host.now)
    modifies host`now, host`calls, host`open
    ensures host.Fresh() && (r.Reached? || r.NoSocketAtAll? || r.NotReached? || r.ApiError?)
    ensures r.Reached? ==> host.open == old(host.open) + {r.socket} && r.socket !in old(host.open)
    ensures !r.Reached? ==> host.open == old(host.open)
    ensures r.Reached? <==> CanArrive(course)
    ensures r.Reached? ==> Arrives(course, tried) && 0 < |tried| <= |candidates|
    ensures r.Reached? ==> r.endpoint == candidates[|tried| - 1].endpoint && r.socket == course.call + |tried| - 1
    ensures !r.Reached? ==> GivesUp(course, tried)
    ensures r.NotReached? || r.NoSocketAtAll? ==> r.attempts == tried
    ensures r.NotReached? || r.NoSocketAtAll? ==> |tried| == |candidates| || host.now >= deadline
    ensures r.NoSocketAtAll? ==> |tried| == |candidates| && AllUnavailable(tried)
    ensures r.NotReached? ==> !(|tried| == |candidates| && AllUnavailable(tried))
    ensures host.now == course.start + Elapsed(tried)
  {
    hide Trail, Arrives, CanArrive, GivesUp, EventAt;
    var attempts: seq<Attempt> := [];
    tried := [];
    NoAttempts(course);
    var i := 0;
    while i < |candidates|
      invariant 0 <= i <= |candidates| && |attempts| == i && tried == attempts
      invariant Trail(course, attempts) && AllRefused(attempts)
      invariant host.Fresh() && host.open == old(host.open) && host.calls == old(host.calls) + i
      invariant host.now == old(host.now) + Elapsed(attempts)
    {
      var remaining := deadline - host.now;
      if remaining <= 0.0 { break; }
      var budget := Share(remaining, |candidates| - i);
      var c;
      c, tried := ConnectOne(host, candidates[i], budget, deadline, course, attempts);
      if c.NetworkApiError? {
        GivenUp(course, tried);
        return ApiError, tried;
      }
      // The clock does not move between the two tests of the deadline.
      if c.DeadlinePassed? { assert false; }
      if c.Open? {
        ArrivalIsTrail(course, tried);
        return Reached(c.socket, candidates[i].endpoint), tried;
      }
      attempts := attempts + c.attempts;
      i := i + 1;
    }
    NoArrival(course, tried);
    if |attempts| == |candidates| && AllUnavailable(attempts) { return NoSocketAtAll(attempts), tried; }
    return NotReached(attempts), tried;
  }

  lemma GivenUp(course: Course, tried: seq<Attempt>)
    requires GivesUp(course, tried)
    ensures !CanArrive(course)
  {
    hide Arrives, GivesUp;
    forall t ensures !Arrives(course, t) { GivingUpIsRight(course, tried, t); }
  }

  /** How name resolution ends, and how long it takes. */
  datatype Lookup =
    | Found(candidates: seq<Candidate>, elapsed: real)
    | Negative(elapsed: real)
    | Unusable(elapsed: real)

  const RESOLVER_TIMEOUT_SECONDS: real := 5.0

  /** The time resolution is given. */
  function LookupLimit(remaining: real): (limit: real)
    ensures limit <= RESOLVER_TIMEOUT_SECONDS && limit <= remaining
    ensures remaining <= RESOLVER_TIMEOUT_SECONDS ==> limit == remaining
    ensures remaining > RESOLVER_TIMEOUT_SECONDS ==> limit == RESOLVER_TIMEOUT_SECONDS
  {
    Minimum(RESOLVER_TIMEOUT_SECONDS, remaining)
  }

  /** Resolution that keeps to its timeout. */
  ghost predicate PunctualLookup(lookup: real -> Lookup) {
    forall limit: real | limit > 0.0 :: 0.0 <= lookup(limit).elapsed <= limit
  }

  /**
   * `_connect_tcp_target`: the deadline test, name resolution within the time left, then the candidates. The target is
   * reached exactly when some candidate's call, given its share, connects in time after only refusals.
   */
  method ConnectTarget(host: Host, lookup: real -> Lookup, deadline: real) returns (r: Target)
    requires host.Fresh()
    modifies host`now, host`calls, host`open
    ensures host.Fresh()
    ensures r.NoTimeLeft? <==> old(host.now) >= deadline
    ensures r.NoTimeLeft? ==> host.now == old(host.now)
    ensures r.Reached? ==> host.open == old(host.open) + {r.socket} && r.socket !in old(host.open)
    ensures !r.Reached? ==> host.open == old(host.open)
    ensures Punctual(host.script) && PunctualLookup(lookup) && old(host.now) <= deadline ==> host.now <= deadline
    ensures !r.NoTimeLeft? ==>
      var found := lookup(LookupLimit(deadline - old(host.now)));
      && (r.NoSuchName? <==> found.Negative?) && (r.LookupFailed? <==> found.Unusable?)
      && (found.Found? ==>
            var course := old(ShareCourse(host, found.candidates, deadline, host.now + found.elapsed));
            && (r.Reached? <==> CanArrive(course))
            && (forall t :: Arrives(course, t) ==>
                  && r.Reached? && r.endpoint == found.candidates[|t| - 1].endpoint
                  && r.socket == old(host.calls) + |t| - 1)
            && (r.NotReached? || r.NoSocketAtAll? ==> GivesUp(course, r.attempts))
            && (r.NoSocketAtAll? ==>
                  |r.attempts| == |found.candidates| && forall a | a in r.attempts :: a.outcome.SocketUnavailable?)
            && (r.NotReached? ==>
                  |r.attempts| != |found.candidates| || exists a :: a in r.attempts && !a.outcome.SocketUnavailable?)
            && (Punctual(host.script) && r.NotReached? ==>
                  |r.attempts| as real >=
                    Minimum(|found.candidates| as real, (deadline - old(host.now) - found.elapsed) / ATTEMPT_FLOOR)))
  {
    hide Punctual, Trail, GivesUp;
    var remaining := deadline - host.now;
    if remaining <= 0.0 { return NoTimeLeft; }
    var found := lookup(LookupLimit(remaining));
    ghost var course := if found.Found? then ShareCourse(host, found.candidates, deadline, host.now + found.elapsed)
                        else ShareCourse(host, [], deadline, host.now);
    host.now := host.now + found.elapsed;
    match found {
      case Negative(_) => return NoSuchName;
      case Unusable(_) => return LookupFailed;
      case Found(candidates, _) =>
        ghost var tried;
        r, tried := ConnectEach(host, candidates, deadline);
        hide Arrives;
        forall t | Arrives(course, t) ensures r.Reached? && t == tried {
          OneArrival(course, t, tried);
        }
    }
  }
}
