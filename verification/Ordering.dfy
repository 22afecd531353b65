/** Lexicographic order on sequences of numbers, and association lists sorted by such keys. */
module Ordering {
  import opened Sorting

  // Python compares text by code point and `os.fsencode` bytes by value; both are sequences of numbers here.
  type Key = seq<int>

  predicate Less(a: Key, b: Key) {
    b != [] && (a == [] || a[0] < b[0] || (a[0] == b[0] && Less(a[1..], b[1..])))
  }

  lemma {:induction false} LessIsTotal(a: Key, b: Key)
    ensures Less(a, b) || Less(b, a) || a == b
    ensures !(Less(a, b) && Less(b, a)) && !Less(a, a)
  {
    if a != [] { LessIsIrreflexive(a); }
    if a != [] && b != [] {
      LessIsTotal(a[1..], b[1..]);
      assert a == [a[0]] + a[1..] && b == [b[0]] + b[1..];
    }
  }

  lemma {:induction false} LessIsIrreflexive(a: Key)
    ensures !Less(a, a)
  {
    if a != [] { LessIsIrreflexive(a[1..]); }
  }

  lemma {:induction false} LessIsTransitive(a: Key, b: Key, c: Key)
    requires Less(a, b) && Less(b, c)
    ensures Less(a, c)
  {
    if a != [] && a[0] == b[0] == c[0] { LessIsTransitive(a[1..], b[1..], c[1..]); }
  }

  /** The keys are equal before position `k`, and there `a` ends or has the smaller number. */
  ghost predicate DiffersFirst(a: Key, b: Key, k: nat) {
    k <= |a| && k < |b| && a[..k] == b[..k] && (k == |a| || a[k] < b[k])
  }

  /** The first difference decides the order. */
  lemma {:induction false} LessIs(a: Key, b: Key)
    ensures Less(a, b) <==> exists k: nat :: DiffersFirst(a, b, k)
  {
    if a == [] || b == [] || a[0] != b[0] {
      assert DiffersFirst(a, b, 0) <==> Less(a, b);
    } else {
      LessIs(a[1..], b[1..]);
      if k: nat :| DiffersFirst(a[1..], b[1..], k) {
        assert a[..k + 1] == [a[0]] + a[1..][..k] && b[..k + 1] == [b[0]] + b[1..][..k];
        assert DiffersFirst(a, b, k + 1);
      }
      if k: nat :| DiffersFirst(a, b, k) {
        assert k > 0;
        assert a[1..][..k - 1] == a[..k][1..] && b[1..][..k - 1] == b[..k][1..];
        assert DiffersFirst(a[1..], b[1..], k - 1);
      }
    }
  }

  // ----- association lists

  type Pairs<V> = seq<(Key, V)>

  ghost predicate HasKey<V(!new)>(ps: Pairs<V>, k: Key) {
    exists p | p in ps :: p.0 == k
  }

  ghost predicate DistinctKeys<V(!new)>(ps: Pairs<V>) {
    ps == [] || (!HasKey(ps[1..], ps[0].0) && DistinctKeys(ps[1..]))
  }

  /** Strictly ascending keys. */
  ghost predicate Sorted<V(!new)>(ps: Pairs<V>) {
    ps == [] || ((forall p | p in ps[1..] :: Less(ps[0].0, p.0)) && Sorted(ps[1..]))
  }

  predicate KeyBefore<V>(p: (Key, V), q: (Key, V)) {
    Less(p.0, q.0)
  }

  function Insert<V(!new)>(p: (Key, V), ps: Pairs<V>): Pairs<V> {
    InsertBy(KeyBefore, p, ps)
  }

  /** `sorted(...)` by key. */
  function Sort<V(!new)>(ps: Pairs<V>): Pairs<V> {
    SortBy(KeyBefore, ps)
  }

  lemma InsertHas<V(!new)>(p: (Key, V), ps: Pairs<V>)
    ensures forall q :: q in Insert(p, ps) <==> q == p || q in ps
  {
    InsertPermutes(KeyBefore, p, ps);
    forall q ensures q in Insert(p, ps) <==> q == p || q in ps {
      assert q in Insert(p, ps) <==> q in multiset(Insert(p, ps));
    }
  }

  lemma SortHas<V(!new)>(ps: Pairs<V>)
    ensures forall q :: q in Sort(ps) <==> q in ps
  {
    SortPermutes(KeyBefore, ps);
    forall q ensures q in Sort(ps) <==> q in ps {
      assert q in Sort(ps) <==> q in multiset(Sort(ps));
    }
  }

  lemma AbsentKey<V(!new)>(a: Pairs<V>, b: Pairs<V>, k: Key)
    requires !HasKey(b, k) && forall q | q in a :: q in b
    ensures !HasKey(a, k)
  {}

  lemma InsertFront<V(!new)>(p: (Key, V), ps: Pairs<V>)
    requires Sorted(ps) && (ps != [] ==> Less(p.0, ps[0].0))
    ensures Sorted([p] + ps)
  {
    hide Less;
    forall q | q in ps ensures Less(p.0, q.0) {
      if q != ps[0] { LessIsTransitive(p.0, ps[0].0, q.0); }
    }
    assert ([p] + ps)[1..] == ps;
  }

  lemma SortedCons<V(!new)>(p: (Key, V), ps: Pairs<V>)
    requires Sorted(ps) && forall q | q in ps :: Less(p.0, q.0)
    ensures Sorted([p] + ps)
  {
    assert ([p] + ps)[1..] == ps;
  }

  lemma {:induction false} InsertSorted<V(!new)>(p: (Key, V), ps: Pairs<V>)
    requires Sorted(ps) && !HasKey(ps, p.0)
    ensures Sorted(Insert(p, ps))
  {
    hide Less;
    if ps == [] || Less(p.0, ps[0].0) {
      InsertFront(p, ps);
    } else {
      assert ps[0] in ps;
      LessIsTotal(p.0, ps[0].0);
      AbsentKey(ps[1..], ps, p.0);
      InsertSorted(p, ps[1..]);
      InsertHas(p, ps[1..]);
      SortedCons(ps[0], Insert(p, ps[1..]));
    }
  }

  lemma HasKeySnoc<V(!new)>(ps: Pairs<V>, p: (Key, V), k: Key)
    ensures HasKey(ps + [p], k) <==> HasKey(ps, k) || p.0 == k
  {
    if p.0 == k { assert p in ps + [p]; }
    if q :| q in ps && q.0 == k { assert q in ps + [p]; }
  }

  lemma HasKeyCons<V(!new)>(p: (Key, V), ps: Pairs<V>, k: Key)
    ensures HasKey([p] + ps, k) <==> p.0 == k || HasKey(ps, k)
  {
    if p.0 == k { assert p in [p] + ps; }
    if q :| q in ps && q.0 == k { assert q in [p] + ps; }
  }

  lemma {:induction false} DistinctSnoc<V(!new)>(ps: Pairs<V>, p: (Key, V))
    ensures DistinctKeys(ps + [p]) <==> DistinctKeys(ps) && !HasKey(ps, p.0)
  {
    if ps == [] {
      assert ps + [p] == [p];
    } else {
      assert (ps + [p])[1..] == ps[1..] + [p];
      assert ps == [ps[0]] + ps[1..];
      DistinctSnoc(ps[1..], p);
      HasKeyCons(ps[0], ps[1..], p.0);
      HasKeySnoc(ps[1..], p, ps[0].0);
    }
  }

  lemma {:induction false} SortIsSorted<V(!new)>(ps: Pairs<V>)
    requires DistinctKeys(ps)
    ensures Sorted(Sort(ps))
  {
    if ps != [] {
      var init, last := ps[..|ps| - 1], ps[|ps| - 1];
      assert ps == init + [last];
      DistinctSnoc(init, last);
      SortIsSorted(init);
      SortHas(init);
      AbsentKey(Sort(init), init, last.0);
      InsertSorted(last, Sort(init));
      SortSnoc(KeyBefore, init, last);
    }
  }

  lemma SomeMember<V(!new)>(ps: Pairs<V>)
    ensures ps != [] ==> exists p :: p in ps
  {
    if ps != [] { assert ps[0] in ps; }
  }

  /** A sorted list is determined by its set of pairs. */
  lemma {:induction false} SortedIsUnique<V(!new)>(a: Pairs<V>, b: Pairs<V>)
    requires Sorted(a) && Sorted(b) && forall p :: p in a <==> p in b
    ensures a == b
  {
    if a == [] {
      SomeMember(b);
    } else {
      assert a[0] in a;
      assert a[0] in b;
      assert b[0] in b;
      assert b[0] in a;
      assert a == [a[0]] + a[1..] && b == [b[0]] + b[1..];
      if a[0] != b[0] {
        assert a[0] in b[1..] && b[0] in a[1..];
        LessIsTotal(a[0].0, b[0].0);
        assert false;
      }
      TailsAgree(a, b);
      SortedIsUnique(a[1..], b[1..]);
    }
  }

  lemma TailsAgree<V(!new)>(a: Pairs<V>, b: Pairs<V>)
    requires Sorted(a) && Sorted(b) && a != [] && b != [] && a[0] == b[0] && forall p :: p in a <==> p in b
    ensures forall p :: p in a[1..] <==> p in b[1..]
  {
    LessIsIrreflexive(a[0].0);
    assert a == [a[0]] + a[1..] && b == [b[0]] + b[1..];
    forall p ensures p in a[1..] <==> p in b[1..] {
      assert p in a[1..] ==> p in a;
      assert p in b[1..] ==> p in b;
    }
  }

  // ----- reading an association list as a map

  function MapOf<V(!new)>(ps: Pairs<V>): (m: map<Key, V>)
    ensures forall k :: k in m <==> HasKey(ps, k)
  {
    if ps == [] then map[] else
      assert ps == [ps[0]] + ps[1..];
      MapOf(ps[1..])[ps[0].0 := ps[0].1]
  }

  lemma {:induction false} MapOfMember<V(!new)>(ps: Pairs<V>, p: (Key, V))
    requires DistinctKeys(ps)
    ensures p in ps <==> p.0 in MapOf(ps) && MapOf(ps)[p.0] == p.1
  {
    if ps != [] {
      MapOfMember(ps[1..], p);
      assert ps == [ps[0]] + ps[1..];
    }
  }

  /** Sorting decides equality of the maps two lists denote. */
  lemma SortDecidesMap<V(!new)>(a: Pairs<V>, b: Pairs<V>)
    requires DistinctKeys(a) && DistinctKeys(b)
    ensures Sort(a) == Sort(b) <==> MapOf(a) == MapOf(b)
  {
    SortHas(a);
    SortHas(b);
    if MapOf(a) == MapOf(b) {
      forall p ensures p in Sort(a) <==> p in Sort(b) {
        MapOfMember(a, p);
        MapOfMember(b, p);
      }
      SortIsSorted(a);
      SortIsSorted(b);
      SortedIsUnique(Sort(a), Sort(b));
    }
    if Sort(a) == Sort(b) {
      SameMembersSameMap(a, b);
    }
  }

  lemma SameMembersSameMap<V(!new)>(a: Pairs<V>, b: Pairs<V>)
    requires DistinctKeys(a) && DistinctKeys(b) && forall p :: p in a <==> p in b
    ensures MapOf(a) == MapOf(b)
  {
    forall k | k in MapOf(a) ensures k in MapOf(b) && MapOf(a)[k] == MapOf(b)[k] {
      MapOfMember(a, (k, MapOf(a)[k]));
      MapOfMember(b, (k, MapOf(a)[k]));
    }
    forall k | k in MapOf(b) ensures k in MapOf(a) {
      MapOfMember(b, (k, MapOf(b)[k]));
      MapOfMember(a, (k, MapOf(b)[k]));
    }
  }
}
