/** ConfigDiff's JSON mode: strict objects, dotted key selection and the verdict on two documents. */
module JsonSelection {
  import opened Basics
  import opened Ordering
  import opened CanonicalJson
  import opened JsonSame

  // ----- `_strict_json`, the hook applied to every object of a document

  lemma {:induction false} DistinctPrefix(ps: seq<(Key, Json)>, n: nat)
    requires n <= |ps| && DistinctKeys(ps)
    ensures DistinctKeys(ps[..n])
    decreases |ps| - n
  {
    if n < |ps| {
      DistinctPrefix(ps, n + 1);
      assert ps[..n + 1] == ps[..n] + [ps[n]];
      DistinctSnoc(ps[..n], ps[n]);
    } else {
      assert ps[..n] == ps;
    }
  }

  lemma {:induction false} DistinctIs(ps: seq<(Key, Json)>)
    ensures DistinctKeys(ps) <==> forall i, j | 0 <= i < j < |ps| :: ps[i].0 != ps[j].0
  {
    if ps != [] {
      var rest := ps[1..];
      DistinctIs(rest);
      assert forall i | 0 <= i < |rest| :: rest[i] == ps[i + 1];
      if HasKey(rest, ps[0].0) {
        var p :| p in rest && p.0 == ps[0].0;
        var i :| 0 <= i < |rest| && rest[i] == p;
        assert ps[i + 1].0 == ps[0].0;
      } else {
        forall j | 0 < j < |ps| ensures ps[j].0 != ps[0].0 { assert ps[j] in rest by { assert rest[j - 1] == ps[j]; } }
      }
      assert forall i, j | 1 <= i < j < |ps| :: ps[i] == rest[i - 1] && ps[j] == rest[j - 1];
    }
  }

  /** The dictionary under construction is `result` with key set `keys`; None is the duplicate-key ValueError. */
  method StrictJson(pairs: seq<(Key, Json)>) returns (r: Option<seq<(Key, Json)>>)
    ensures r.Some? <==> DistinctKeys(pairs)
    ensures r.Some? <==> forall i, j | 0 <= i < j < |pairs| :: pairs[i].0 != pairs[j].0
    ensures r.Some? ==> r.value == pairs
  {
    var result: seq<(Key, Json)> := [];
    var keys: set<Key> := {};
    for i := 0 to |pairs|
      invariant result == pairs[..i] && DistinctKeys(result)
      invariant forall k :: k in keys <==> HasKey(result, k)
    {
      assert pairs[..i + 1] == pairs[..i] + [pairs[i]];
      DistinctSnoc(result, pairs[i]);
      if pairs[i].0 in keys {
        if DistinctKeys(pairs) { DistinctPrefix(pairs, i + 1); }
        DistinctIs(pairs);
        return None;
      }
      forall k ensures HasKey(result + [pairs[i]], k) <==> HasKey(result, k) || pairs[i].0 == k {
        HasKeySnoc(result, pairs[i], k);
      }
      result := result + [pairs[i]];
      keys := keys + {pairs[i].0};
    }
    assert pairs[..|pairs|] == pairs;
    DistinctIs(pairs);
    return Some(result);
  }

  // ----- dotted keys

  const DOT: int := 0x2E

  /** `dotted.split(".")`. */
  function Components(dotted: Key): (r: seq<Key>)
    ensures r != []
  {
    if dotted == [] then [[]]
    else if dotted[0] == DOT then [[]] + Components(dotted[1..])
    else
      var rest := Components(dotted[1..]);
      [[dotted[0]] + rest[0]] + rest[1..]
  }

  /** The components with a dot between each two. */
  function Dotted(components: seq<Key>): Key
    requires components != []
  {
    if |components| == 1 then components[0] else components[0] + [DOT] + Dotted(components[1..])
  }

  /** The components of a dotted key: they contain no dot, and joined by dots they are the key. */
  ghost predicate IsDotted(key: Key, components: seq<Key>) {
    components != [] && Dotted(components) == key && forall c | c in components :: DOT !in c
  }

  lemma {:induction false} ComponentsAreDotted(key: Key)
    ensures IsDotted(key, Components(key))
  {
    if key != [] {
      ComponentsAreDotted(key[1..]);
      var rest := Components(key[1..]);
      if key[0] == DOT {
        assert ([[]] + rest)[1..] == rest;
        assert Dotted([[]] + rest) == [] + [DOT] + Dotted(rest);
      } else {
        var first := [key[0]] + rest[0];
        assert rest == [rest[0]] + rest[1..] && rest[0] in rest;
        if |rest| > 1 {
          assert ([first] + rest[1..])[1..] == rest[1..];
          assert [key[0]] + (rest[0] + [DOT] + Dotted(rest[1..])) == first + [DOT] + Dotted(rest[1..]);
        }
      }
    }
  }

  lemma {:induction false} PlainComponent(first: Key)
    requires DOT !in first
    ensures Components(first) == [first]
  {
    if first != [] {
      assert first[0] in first && first == [first[0]] + first[1..];
      PlainComponent(first[1..]);
    }
  }

  lemma {:induction false} DotEndsComponent(first: Key, key: Key)
    requires DOT !in first
    ensures Components(first + [DOT] + key) == [first] + Components(key)
    decreases |first|
  {
    var all := first + [DOT] + key;
    if first == [] {
      assert all[1..] == key;
    } else {
      assert first[0] in first && first == [first[0]] + first[1..];
      assert all[1..] == first[1..] + [DOT] + key;
      DotEndsComponent(first[1..], key);
    }
  }

  /** A key has one list of components. */
  lemma {:induction false} OneWayToDot(key: Key, components: seq<Key>)
    requires IsDotted(key, components)
    ensures components == Components(key)
    decreases |components|
  {
    var first := components[0];
    assert first in components;
    if |components| == 1 {
      PlainComponent(first);
      assert components == [first];
    } else {
      var rest := components[1..];
      OneWayToDot(Dotted(rest), rest);
      DotEndsComponent(first, Dotted(rest));
      assert components == [first] + rest;
    }
  }

  function Member(members: seq<(Key, Json)>, k: Key): (r: Option<Json>)
    ensures r.Some? ==> (k, r.value) in members
  {
    if members == [] then None
    else if members[0].0 == k then Some(members[0].1)
    else Member(members[1..], k)
  }

  /** Following the components through objects; anything else on the way is MISSING. */
  function Lookup(j: Json, path: seq<Key>): Json
    decreases |path|
  {
    if path == [] then j
    else match j
      case Object(members) =>
        (match Member(members, path[0])
         case Some(next) => Lookup(next, path[1..])
         case None => Missing)
      case _ => Missing
  }

  /** The same on meanings. */
  function LookupValue(v: Value, path: seq<Key>): Value
    decreases |path|
  {
    if path == [] then v
    else if v.VObject? && path[0] in v.members then LookupValue(v.members[path[0]], path[1..])
    else VMissing
  }

  lemma {:induction false} MemberMeans(members: seq<(Key, Json)>, k: Key)
    ensures k in MapOf(MemberMeanings(members)) <==> Member(members, k).Some?
    ensures Member(members, k).Some? ==> MapOf(MemberMeanings(members))[k] == Meaning(Member(members, k).value)
  {
    if members != [] { MemberMeans(members[1..], k); }
  }

  /** Looking up commutes with reading the meaning. */
  lemma {:induction false} LookupMeans(j: Json, path: seq<Key>)
    ensures Meaning(Lookup(j, path)) == LookupValue(Meaning(j), path)
    decreases |path|
  {
    if path != [] && j.Object? {
      MemberMeans(j.members, path[0]);
      var next := Member(j.members, path[0]);
      if next.Some? { LookupMeans(next.value, path[1..]); }
    }
  }

  lemma {:induction false} MemberIsStrict(members: seq<(Key, Json)>, k: Key)
    requires NoMemberDuplicates(members)
    ensures Member(members, k).Some? ==> NoDuplicates(Member(members, k).value)
  {
    if members != [] && members[0].0 != k { MemberIsStrict(members[1..], k); }
  }

  lemma {:induction false} LookupIsStrict(j: Json, path: seq<Key>)
    requires NoDuplicates(j)
    ensures NoDuplicates(Lookup(j, path))
    decreases |path|
  {
    if path != [] && j.Object? {
      MemberIsStrict(j.members, path[0]);
      var next := Member(j.members, path[0]);
      if next.Some? { LookupIsStrict(next.value, path[1..]); }
    }
  }

  // ----- `_selected_json`

  /** The dictionary `selected` after the keys `done`: one entry per distinct key, each looked up. */
  ghost predicate IsSelection(value: Json, done: seq<Key>, selected: seq<(Key, Json)>) {
    && DistinctKeys(selected)
    && (forall k :: HasKey(selected, k) <==> k in done)
    && (forall p | p in selected :: p.1 == Lookup(value, Components(p.0)))
  }

  method SelectOne(value: Json, dotted: Key) returns (current: Json)
    ensures current == Lookup(value, Components(dotted))
  {
    current := value;
    var components := Components(dotted);
    for i := 0 to |components|
      invariant Lookup(current, components[i..]) == Lookup(value, components)
    {
      assert components[i..][1..] == components[i + 1..];
      if !current.Object? || Member(current.members, components[i]).None? {
        return Missing;
      }
      current := Member(current.members, components[i]).value;
    }
  }

  lemma SelectionGrows(value: Json, done: seq<Key>, selected: seq<(Key, Json)>, k: Key, found: Json)
    requires IsSelection(value, done, selected) && found == Lookup(value, Components(k))
    ensures k !in done ==> IsSelection(value, done + [k], selected + [(k, found)])
    ensures k in done ==> IsSelection(value, done + [k], selected)
  {
    if k !in done {
      DistinctSnoc(selected, (k, found));
      forall x ensures HasKey(selected + [(k, found)], x) <==> x in done + [k] {
        HasKeySnoc(selected, (k, found), x);
      }
    }
  }

  method SelectedJson(value: Json, keys: seq<Key>) returns (selected: seq<(Key, Json)>)
    ensures IsSelection(value, keys, selected)
  {
    hide IsSelection;
    selected := [];
    var seen: set<Key> := {};
    NothingSelected(value);
    for i := 0 to |keys|
      invariant IsSelection(value, keys[..i], selected)
      invariant seen == set k | k in keys[..i]
    {
      var found := SelectOne(value, keys[i]);
      assert keys[..i + 1] == keys[..i] + [keys[i]];
      SelectionGrows(value, keys[..i], selected, keys[i], found);
      // Assigning an existing key stores the value it already has.
      if keys[i] !in seen {
        selected := selected + [(keys[i], found)];
        seen := seen + {keys[i]};
      }
    }
    assert keys[..|keys|] == keys;
  }

  lemma NothingSelected(value: Json)
    ensures IsSelection(value, [], [])
  {}

  lemma {:induction false} SelectionIsStrict(value: Json, selected: seq<(Key, Json)>)
    requires NoDuplicates(value) && forall p | p in selected :: p.1 == Lookup(value, Components(p.0))
    ensures NoMemberDuplicates(selected)
  {
    if selected != [] {
      assert selected[0] in selected;
      LookupIsStrict(value, Components(selected[0].0));
      SelectionIsStrict(value, selected[1..]);
    }
  }

  /** The meaning of a selection: each requested key with the meaning found there. */
  lemma SelectionMeans(value: Json, keys: seq<Key>, selected: seq<(Key, Json)>, k: Key)
    requires IsSelection(value, keys, selected)
    ensures k in MapOf(MemberMeanings(selected)) <==> k in keys
    ensures k in keys ==> MapOf(MemberMeanings(selected))[k] == LookupValue(Meaning(value), Components(k))
  {
    MeaningKeys(selected, k);
    MemberMeans(selected, k);
    LookupMeans(value, Components(k));
  }

  /** Two selections have one canonical form exactly when every requested key means the same in both documents. */
  lemma SelectionDecides(a: Json, b: Json, keys: seq<Key>, sa: seq<(Key, Json)>, sb: seq<(Key, Json)>)
    requires NoDuplicates(a) && NoDuplicates(b)
    requires IsSelection(a, keys, sa) && IsSelection(b, keys, sb)
    ensures Canon(Object(sa)) == Canon(Object(sb)) <==>
      forall k | k in keys :: LookupValue(Meaning(a), Components(k)) == LookupValue(Meaning(b), Components(k))
  {
    SelectionIsStrict(a, sa);
    SelectionIsStrict(b, sb);
    CanonDecides(Object(sa), Object(sb));
    var m, n := MapOf(MemberMeanings(sa)), MapOf(MemberMeanings(sb));
    forall k ensures (k in m <==> k in keys) && (k in n <==> k in keys)
      ensures k in keys ==>
        m[k] == LookupValue(Meaning(a), Components(k)) && n[k] == LookupValue(Meaning(b), Components(k))
    {
      SelectionMeans(a, keys, sa, k);
      SelectionMeans(b, keys, sb, k);
    }
    MapsOverKeys(keys, m, n);
  }

  lemma MapsOverKeys(keys: seq<Key>, m: map<Key, Value>, n: map<Key, Value>)
    requires forall k :: (k in m <==> k in keys) && (k in n <==> k in keys)
    ensures m == n <==> forall k | k in keys :: m[k] == n[k]
  {
    if forall k | k in keys :: m[k] == n[k] {
      forall k | k in m ensures k in n && m[k] == n[k] {}
    }
  }

  // ----- what is found under a key, stated on the document itself

  /** Following the components through objects leads to `found`. */
  ghost predicate LeadsTo(j: Json, path: seq<Key>, found: Json)
    decreases |path|
  {
    if path == [] then found == j
    else j.Object? && exists m :: m in j.members && m.0 == path[0] && LeadsTo(m.1, path[1..], found)
  }

  /** What a path finds: what it leads to, or MISSING. */
  ghost predicate Finds(j: Json, path: seq<Key>, found: Json) {
    LeadsTo(j, path, found) || (found == Missing && forall other :: !LeadsTo(j, path, other))
  }

  lemma {:induction false} MemberOnce(members: seq<(Key, Json)>, k: Key)
    requires DistinctKeys(members)
    ensures forall m | m in members && m.0 == k :: Member(members, k) == Some(m.1)
  {
    if members != [] {
      MemberOnce(members[1..], k);
      assert members == [members[0]] + members[1..];
    }
  }

  lemma {:induction false} LookupLeads(j: Json, path: seq<Key>, found: Json)
    requires NoDuplicates(j)
    ensures LeadsTo(j, path, found) ==> Lookup(j, path) == found
    ensures Lookup(j, path) == Missing || LeadsTo(j, path, Lookup(j, path))
    decreases |path|
  {
    if path != [] && j.Object? {
      MemberOnce(j.members, path[0]);
      MemberIsStrict(j.members, path[0]);
      var next := Member(j.members, path[0]);
      if next.Some? {
        LookupLeads(next.value, path[1..], found);
        assert (path[0], next.value) in j.members;
        LookupLeads(next.value, path[1..], Lookup(j, path));
      }
    }
  }

  /** Looking up finds the one thing there is to find. */
  lemma LookupFinds(j: Json, path: seq<Key>)
    requires NoDuplicates(j)
    ensures forall found :: Finds(j, path, found) <==> found == Lookup(j, path)
  {
    LookupLeads(j, path, Missing);
    hide Lookup, LeadsTo;
    forall found ensures Finds(j, path, found) <==> found == Lookup(j, path) {
      LookupLeads(j, path, found);
      if found == Lookup(j, path) == Missing && !LeadsTo(j, path, Missing) {
        forall other ensures !LeadsTo(j, path, other) { LookupLeads(j, path, other); }
      }
    }
  }

  /** The two documents differ at a selected key. */
  ghost predicate DifferAtKey(a: Json, b: Json, k: Key) {
    exists path, v, w :: IsDotted(k, path) && Finds(a, path, v) && Finds(b, path, w) && !SameJson(v, w)
  }

  lemma KeyDiffers(a: Json, b: Json, k: Key)
    requires NoDuplicates(a) && NoDuplicates(b)
    ensures DifferAtKey(a, b, k) <==> LookupValue(Meaning(a), Components(k)) != LookupValue(Meaning(b), Components(k))
  {
    var path := Components(k);
    ComponentsAreDotted(k);
    LookupFinds(a, path);
    LookupFinds(b, path);
    LookupMeans(a, path);
    LookupMeans(b, path);
    LookupIsStrict(a, path);
    LookupIsStrict(b, path);
    MeaningIsSame(Lookup(a, path), Lookup(b, path));
    hide Finds, SameJson, Meaning, Lookup, LookupValue, Components, NoDuplicates, IsDotted;
    if DifferAtKey(a, b, k) {
      var other, v, w :| IsDotted(k, other) && Finds(a, other, v) && Finds(b, other, w) && !SameJson(v, w);
      OneWayToDot(k, other);
    }
    if !SameJson(Lookup(a, path), Lookup(b, path)) {
      assert Finds(a, path, Lookup(a, path)) && Finds(b, path, Lookup(b, path));
    }
  }

  /** The verdict of JSON mode on two loaded documents, whole or restricted to `keys`. */
  method ContentDrift(a: Json, b: Json, keys: seq<Key>) returns (drift: bool)
    requires NoDuplicates(a) && NoDuplicates(b)
    ensures keys == [] ==> (drift <==> !SameJson(a, b))
    ensures keys == [] ==> (drift <==> Meaning(a) != Meaning(b))
    ensures keys != [] ==> (drift <==> exists k :: k in keys && DifferAtKey(a, b, k))
    ensures keys != [] ==> (drift <==>
      exists k | k in keys :: LookupValue(Meaning(a), Components(k)) != LookupValue(Meaning(b), Components(k)))
  {
    hide SameJson, Meaning, Canon, DifferAtKey, NoDuplicates, LookupValue, Components;
    if keys == [] {
      CanonDecides(a, b);
      MeaningIsSame(a, b);
      return Canon(a) != Canon(b);
    }
    var sa := SelectedJson(a, keys);
    var sb := SelectedJson(b, keys);
    SelectionDecides(a, b, keys, sa, sb);
    forall k
      ensures DifferAtKey(a, b, k) <==> LookupValue(Meaning(a), Components(k)) != LookupValue(Meaning(b), Components(k))
    {
      KeyDiffers(a, b, k);
    }
    return Canon(Object(sa)) != Canon(Object(sb));
  }
}
