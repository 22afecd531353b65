/** The value types HealthCtl's configuration validation and scheduler share. */
module HealthChecks {

  // `target` is the display text the program derives from the check (healthctl.py, `_check_target`).
  datatype Check = Check(
    name: string,
    kind: string,
    dependsOn: seq<string>,
    profile: string,
    group: string,
    target: string)

  // The source keeps statuses as strings; any text outside the four names is `Other`.
  datatype Status = Pass | Fail | Error | Skipped | Other(text: string)

  datatype CheckResult = CheckResult(
    name: string,
    kind: string,
    status: Status,
    target: string,
    evidence: string,
    attempts: nat)

  ghost predicate DistinctNames(checks: seq<Check>) {
    forall i, j :: 0 <= i < j < |checks| ==> checks[i].name != checks[j].name
  }

  function Names(checks: seq<Check>): set<string> {
    set c | c in checks :: c.name
  }

  lemma SameNameSameCheck(checks: seq<Check>, a: Check, b: Check)
    requires DistinctNames(checks)
    requires a in checks && b in checks && a.name == b.name
    ensures a == b
  {
    var i :| 0 <= i < |checks| && checks[i] == a;
    var j :| 0 <= j < |checks| && checks[j] == b;
    if i < j { } else if j < i { }
  }

  function Join(parts: seq<string>, separator: string): string {
    if parts == [] then ""
    else if |parts| == 1 then parts[0]
    else parts[0] + separator + Join(parts[1..], separator)
  }

  /** One separator goes between two non-empty lists. */
  lemma {:induction false} JoinConcat(a: seq<string>, b: seq<string>, separator: string)
    requires a != [] && b != []
    ensures Join(a + b, separator) == Join(a, separator) + separator + Join(b, separator)
    decreases |a|
  {
    assert (a + b)[1..] == a[1..] + b;
    JoinStep(a + b, separator);
    if |a| == 1 {
      assert a[1..] + b == b;
    } else {
      JoinConcat(a[1..], b, separator);
      JoinStep(a, separator);
      hide Join;
      var first, rest, last := a[0] + separator, Join(a[1..], separator), Join(b, separator);
      assert first + (rest + separator + last) == (first + rest) + separator + last;
    }
  }

  lemma JoinStep(parts: seq<string>, separator: string)
    requires |parts| > 1
    ensures Join(parts, separator) == (parts[0] + separator) + Join(parts[1..], separator)
  {}

  lemma JoinFew(x: string, separator: string)
    ensures Join([], separator) == "" && Join([x], separator) == x
  {}
}
