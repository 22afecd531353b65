/** LogHound's `PatternStore`: exact counts for at most MAX_PATTERNS normalized patterns. */
module PatternStore {
  import opened Basics
  import opened Counting

  type Text = seq<int>
  type Digest = seq<int>

  const MAX_PATTERNS: nat := 100_000
  const EXCERPT_CODEPOINTS: nat := 160

  datatype Entry = Entry(count: nat, first: nat, last: nat, excerpt: Text, length: nat)

  /** One call of `add`. */
  datatype Added = Added(pattern: Text, line: nat)

  function Digests(digest: Text -> Digest, added: seq<Added>): (r: seq<Digest>)
    ensures |r| == |added| && forall i | 0 <= i < |added| :: r[i] == digest(added[i].pattern)
  {
    seq(|added|, i requires 0 <= i < |added| => digest(added[i].pattern))
  }

  /** The first and the last call whose pattern has digest `d`. */
  ghost predicate IsFirst(digest: Text -> Digest, added: seq<Added>, d: Digest, k: nat) {
    k < |added| && digest(added[k].pattern) == d && forall i | 0 <= i < k :: digest(added[i].pattern) != d
  }

  ghost predicate IsLast(digest: Text -> Digest, added: seq<Added>, d: Digest, k: nat) {
    k < |added| && digest(added[k].pattern) == d && forall i | k < i < |added| :: digest(added[i].pattern) != d
  }

  /** The entry of `d` says exactly what the calls say. */
  ghost predicate Exact(digest: Text -> Digest, added: seq<Added>, d: Digest, e: Entry) {
    && e.count == Occurrences(Digests(digest, added), d)
    && (exists k: nat :: IsFirst(digest, added, d, k) && e.first == added[k].line
          && e.excerpt == Take(added[k].pattern, EXCERPT_CODEPOINTS) && e.length == |added[k].pattern|)
    && (exists k: nat :: IsLast(digest, added, d, k) && e.last == added[k].line)
  }

  lemma DigestsGrow(digest: Text -> Digest, added: seq<Added>, a: Added)
    ensures Digests(digest, added + [a]) == Digests(digest, added) + [digest(a.pattern)]
  {}

  lemma OtherStaysExact(digest: Text -> Digest, added: seq<Added>, a: Added, d: Digest, e: Entry)
    requires Exact(digest, added, d, e) && digest(a.pattern) != d
    ensures Exact(digest, added + [a], d, e)
  {
    var more := added + [a];
    DigestsGrow(digest, added, a);
    OneMore(Digests(digest, added), digest(a.pattern));
    var k: nat :| IsFirst(digest, added, d, k) && e.first == added[k].line
          && e.excerpt == Take(added[k].pattern, EXCERPT_CODEPOINTS) && e.length == |added[k].pattern|;
    assert IsFirst(digest, more, d, k) && more[k] == added[k];
    var l: nat :| IsLast(digest, added, d, l) && e.last == added[l].line;
    assert IsLast(digest, more, d, l) && more[l] == added[l];
  }

  lemma RepeatStaysExact(digest: Text -> Digest, added: seq<Added>, a: Added, e: Entry)
    requires Exact(digest, added, digest(a.pattern), e)
    ensures Exact(digest, added + [a], digest(a.pattern), e.(count := e.count + 1, last := a.line))
  {
    var more, d := added + [a], digest(a.pattern);
    DigestsGrow(digest, added, a);
    OneMore(Digests(digest, added), d);
    var k: nat :| IsFirst(digest, added, d, k) && e.first == added[k].line
          && e.excerpt == Take(added[k].pattern, EXCERPT_CODEPOINTS) && e.length == |added[k].pattern|;
    assert IsFirst(digest, more, d, k) && more[k] == added[k];
    assert IsLast(digest, more, d, |added|) && more[|added|] == a;
  }

  lemma NewIsExact(digest: Text -> Digest, added: seq<Added>, a: Added)
    requires digest(a.pattern) !in Digests(digest, added)
    ensures Exact(digest, added + [a], digest(a.pattern),
                  Entry(1, a.line, a.line, Take(a.pattern, EXCERPT_CODEPOINTS), |a.pattern|))
  {
    var more, d := added + [a], digest(a.pattern);
    DigestsGrow(digest, added, a);
    OneMore(Digests(digest, added), d);
    NoOccurrences(Digests(digest, added), d);
    forall i | 0 <= i < |added| ensures digest(added[i].pattern) != d {
      assert Digests(digest, added)[i] in Digests(digest, added);
    }
    assert IsFirst(digest, more, d, |added|) && IsLast(digest, more, d, |added|) && more[|added|] == a;
  }

  lemma OutsideGrows(digest: Text -> Digest, added: seq<Added>, a: Added)
    ensures
      var before := Digests(digest, added);
      var after := Digests(digest, added + [a]);
      var d := digest(a.pattern);
      Outside(Tracked(after, MAX_PATTERNS), after) == Outside(Tracked(before, MAX_PATTERNS), before)
        + (if d !in Tracked(before, MAX_PATTERNS) && |Tracked(before, MAX_PATTERNS)| == MAX_PATTERNS then 1 else 0)
  {
    var before, after, d := Digests(digest, added), Digests(digest, added + [a]), digest(a.pattern);
    DigestsGrow(digest, added, a);
    TrackedGrows(before, d, MAX_PATTERNS);
    assert after[..|after| - 1] == before;
    if |Tracked(before, MAX_PATTERNS)| < MAX_PATTERNS {
      DistinctMembers(before);
      OutsideNothing(Tracked(before, MAX_PATTERNS), before);
      forall x | x in after ensures x in Tracked(after, MAX_PATTERNS) {}
      OutsideNothing(Tracked(after, MAX_PATTERNS), after);
    }
  }

  class Store {
    const digest: Text -> Digest
    // The insertion-ordered dictionary `entries`: its keys in order, and its values.
    var order: seq<Digest>
    var entries: map<Digest, Entry>
    var untracked: nat
    ghost var added: seq<Added>

    /** Tracked are exactly the first MAX_PATTERNS distinct patterns, all counts are exact, nothing is lost. */
    ghost predicate Valid()
      reads this
    {
      && order == Tracked(Digests(digest, added), MAX_PATTERNS)
      && (forall d :: d in entries <==> d in order)
      && (forall d | d in order :: Exact(digest, added, d, entries[d]))
      && untracked == Outside(order, Digests(digest, added))
    }

    constructor (digest: Text -> Digest)
      ensures Valid() && added == [] && this.digest == digest
    {
      this.digest := digest;
      order, entries, untracked, added := [], map[], 0, [];
    }

    method Add(pattern: Text, line: nat)
      requires Valid()
      modifies this
      ensures Valid() && added == old(added) + [Added(pattern, line)]
    {
      ghost var a := Added(pattern, line);
      ghost var before := entries;
      var d := digest(pattern);
      DigestsGrow(digest, added, a);
      TrackedGrows(Digests(digest, added), d, MAX_PATTERNS);
      OutsideGrows(digest, added, a);
      hide Exact, Tracked, Outside;
      forall x | x in order && x != d ensures Exact(digest, added + [a], x, before[x]) {
        OtherStaysExact(digest, added, a, x, before[x]);
      }
      if d in entries {
        RepeatStaysExact(digest, added, a, entries[d]);
        entries := entries[d := entries[d].(count := entries[d].count + 1, last := line)];
      } else if |order| < MAX_PATTERNS {
        NewIsExact(digest, added, a);
        entries := entries[d := Entry(1, line, line, Take(pattern, EXCERPT_CODEPOINTS), |pattern|)];
        order := order + [d];
      } else {
        untracked := untracked + 1;
      }
      added := added + [a];
    }

    /** `evidence()`. */
    method Evidence() returns (evidence: seq<(Digest, Entry)>)
      requires Valid()
      ensures |evidence| == |order|
      ensures forall i | 0 <= i < |order| :: evidence[i].0 == order[i] && Exact(digest, added, order[i], evidence[i].1)
    {
      hide Exact, Tracked, Outside;
      evidence := [];
      for i := 0 to |order|
        invariant |evidence| == i
        invariant forall j | 0 <= j < i :: evidence[j].0 == order[j] && Exact(digest, added, order[j], evidence[j].1)
      {
        assert order[i] in order;
        evidence := evidence + [(order[i], entries[order[i]])];
      }
    }
  }

  function CountSum(evidence: seq<(Digest, Entry)>): nat {
    if evidence == [] then 0 else evidence[0].1.count + CountSum(evidence[1..])
  }

  lemma {:induction false} CountsAreTotals(digest: Text -> Digest, added: seq<Added>, keys: seq<Digest>,
                                           evidence: seq<(Digest, Entry)>)
    requires |evidence| == |keys|
    requires forall i | 0 <= i < |keys| :: evidence[i].0 == keys[i] && Exact(digest, added, keys[i], evidence[i].1)
    ensures CountSum(evidence) == Total(keys, Digests(digest, added))
  {
    if keys != [] {
      CountsAreTotals(digest, added, keys[1..], evidence[1..]);
    }
  }

  /** Conservation: the reported counts and `untracked_lines` add up to the lines added. */
  lemma CountsAddUp(digest: Text -> Digest, added: seq<Added>, evidence: seq<(Digest, Entry)>)
    requires |evidence| == |Tracked(Digests(digest, added), MAX_PATTERNS)|
    requires forall i | 0 <= i < |evidence| ::
      evidence[i].0 == Tracked(Digests(digest, added), MAX_PATTERNS)[i] &&
        Exact(digest, added, evidence[i].0, evidence[i].1)
    ensures CountSum(evidence) + Outside(Tracked(Digests(digest, added), MAX_PATTERNS), Digests(digest, added)) ==
      |added|
  {
    var digests := Digests(digest, added);
    TrackedMembers(digests, MAX_PATTERNS);
    CountsAreTotals(digest, added, Tracked(digests, MAX_PATTERNS), evidence);
    Conservation(Tracked(digests, MAX_PATTERNS), digests);
  }
}
