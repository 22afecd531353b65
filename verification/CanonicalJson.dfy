/** ConfigDiff's semantic JSON comparison: `_strict_json`, `canonical_json` and `_selected_json`. */
module CanonicalJson {
  import opened Ordering

  // Text is a sequence of code points. Finite floats are reals, so that 0.0 and -0.0 are one value as in Python.
  datatype Json =
    | Missing
    | Null
    | Bool(truth: bool)
    | Int(n: int)
    | Float(x: real)
    | Str(text: Key)
    | Array(items: seq<Json>)
    | Object(members: seq<(Key, Json)>)

  // ----- what a JSON value means: objects read as maps, the scalar types kept apart

  datatype Value =
    | VMissing
    | VNull
    | VBool(truth: bool)
    | VInt(n: int)
    | VFloat(x: real)
    | VStr(text: Key)
    | VArray(items: seq<Value>)
    | VObject(members: map<Key, Value>)

  function Meaning(j: Json): Value
    decreases j, 0
  {
    match j
    case Missing => VMissing
    case Null => VNull
    case Bool(b) => VBool(b)
    case Int(n) => VInt(n)
    case Float(x) => VFloat(x)
    case Str(t) => VStr(t)
    case Array(items) => VArray(ItemMeanings(items))
    case Object(members) => VObject(MapOf(MemberMeanings(members)))
  }

  function ItemMeanings(items: seq<Json>): (r: seq<Value>)
    ensures |r| == |items|
    decreases items, 1
  {
    if items == [] then [] else [Meaning(items[0])] + ItemMeanings(items[1..])
  }

  function MemberMeanings(members: seq<(Key, Json)>): seq<(Key, Value)>
    decreases members, 1
  {
    if members == [] then [] else [MemberMeaning(members[0])] + MemberMeanings(members[1..])
  }

  function MemberMeaning(m: (Key, Json)): (Key, Value)
    decreases m, 1
  {
    (m.0, Meaning(m.1))
  }

  /** No object anywhere in the document has a duplicate key. */
  ghost predicate NoDuplicates(j: Json)
    decreases j, 0
  {
    match j
    case Array(items) => NoItemDuplicates(items)
    case Object(members) => DistinctKeys(members) && NoMemberDuplicates(members)
    case _ => true
  }

  ghost predicate NoItemDuplicates(items: seq<Json>)
    decreases items, 1
  {
    items == [] || (NoDuplicates(items[0]) && NoItemDuplicates(items[1..]))
  }

  ghost predicate NoMemberDuplicates(members: seq<(Key, Json)>)
    decreases members, 1
  {
    members == [] || (MemberHasNoDuplicates(members[0]) && NoMemberDuplicates(members[1..]))
  }

  ghost predicate MemberHasNoDuplicates(m: (Key, Json))
    decreases m, 1
  {
    NoDuplicates(m.1)
  }

  // ----- the canonical form

  // The tagged tuples of the source; MISSING is itself the tuple ("missing",).
  datatype Canonical =
    | CMissing
    | CNull
    | CBool(truth: bool)
    | CInt(n: int)
    | CFloat(x: real)
    | CString(text: Key)
    | CArray(items: seq<Canonical>)
    | CObject(members: seq<(Key, Canonical)>)

  function Canon(j: Json): Canonical
    decreases j, 0
  {
    match j
    case Missing => CMissing
    case Null => CNull
    case Bool(b) => CBool(b)
    case Int(n) => CInt(n)
    case Float(x) => CFloat(x)
    case Str(t) => CString(t)
    case Array(items) => CArray(CanonItems(items))
    case Object(members) => CObject(Sort(CanonMembers(members)))
  }

  function CanonItems(items: seq<Json>): (r: seq<Canonical>)
    ensures |r| == |items|
    decreases items, 1
  {
    if items == [] then [] else [Canon(items[0])] + CanonItems(items[1..])
  }

  function CanonMembers(members: seq<(Key, Json)>): seq<(Key, Canonical)>
    decreases members, 1
  {
    if members == [] then [] else [CanonMember(members[0])] + CanonMembers(members[1..])
  }

  function CanonMember(m: (Key, Json)): (Key, Canonical)
    decreases m, 1
  {
    (m.0, Canon(m.1))
  }

  // ----- keys and lookups survive both readings

  lemma {:induction false} MeaningKeys(members: seq<(Key, Json)>, k: Key)
    ensures HasKey(MemberMeanings(members), k) <==> HasKey(members, k)
  {
    if members != [] {
      MeaningKeys(members[1..], k);
      assert members == [members[0]] + members[1..];
      HasKeyCons(members[0], members[1..], k);
      HasKeyCons(MemberMeaning(members[0]), MemberMeanings(members[1..]), k);
    }
  }

  lemma {:induction false} CanonKeys(members: seq<(Key, Json)>, k: Key)
    ensures HasKey(CanonMembers(members), k) <==> HasKey(members, k)
  {
    if members != [] {
      CanonKeys(members[1..], k);
      assert members == [members[0]] + members[1..];
      HasKeyCons(members[0], members[1..], k);
      HasKeyCons(CanonMember(members[0]), CanonMembers(members[1..]), k);
    }
  }

  lemma {:induction false} DistinctBothWays(members: seq<(Key, Json)>)
    requires DistinctKeys(members)
    ensures DistinctKeys(MemberMeanings(members)) && DistinctKeys(CanonMembers(members))
  {
    if members != [] {
      DistinctBothWays(members[1..]);
      MeaningKeys(members[1..], members[0].0);
      CanonKeys(members[1..], members[0].0);
    }
  }

  // ----- equal canonical forms are equal meanings

  /** Document `b` agrees with `a`: the statement proved by induction over both trees. */
  ghost predicate Agree(a: Json, b: Json) {
    Canon(a) == Canon(b) <==> Meaning(a) == Meaning(b)
  }

  lemma {:induction false} CanonDecides(a: Json, b: Json)
    requires NoDuplicates(a) && NoDuplicates(b)
    ensures Agree(a, b)
    decreases a, 0
  {
    match (a, b)
    case (Array(xs), Array(ys)) => ItemsDecide(xs, ys);
    case (Object(xs), Object(ys)) => ObjectsDecide(xs, ys);
    case _ =>
  }

  lemma {:induction false} ItemsDecide(xs: seq<Json>, ys: seq<Json>)
    requires NoItemDuplicates(xs) && NoItemDuplicates(ys)
    ensures CanonItems(xs) == CanonItems(ys) <==> ItemMeanings(xs) == ItemMeanings(ys)
    decreases xs, 1
  {
    if xs != [] && ys != [] {
      CanonDecides(xs[0], ys[0]);
      ItemsDecide(xs[1..], ys[1..]);
      assert CanonItems(xs)[1..] == CanonItems(xs[1..]) && CanonItems(ys)[1..] == CanonItems(ys[1..]);
      assert ItemMeanings(xs)[1..] == ItemMeanings(xs[1..]) && ItemMeanings(ys)[1..] == ItemMeanings(ys[1..]);
    }
  }

  lemma {:induction false} ObjectsDecide(xs: seq<(Key, Json)>, ys: seq<(Key, Json)>)
    requires DistinctKeys(xs) && NoMemberDuplicates(xs) && DistinctKeys(ys) && NoMemberDuplicates(ys)
    ensures Sort(CanonMembers(xs)) == Sort(CanonMembers(ys)) <==> MapOf(MemberMeanings(xs)) == MapOf(MemberMeanings(ys))
    decreases xs, 2
  {
    DistinctBothWays(xs);
    DistinctBothWays(ys);
    SortDecidesMap(CanonMembers(xs), CanonMembers(ys));
    var c, d := MapOf(CanonMembers(xs)), MapOf(CanonMembers(ys));
    var m, n := MapOf(MemberMeanings(xs)), MapOf(MemberMeanings(ys));
    forall k
      ensures (k in c <==> k in m) && (k in d <==> k in n)
      ensures k in c && k in d ==> (c[k] == d[k] <==> m[k] == n[k])
    {
      CanonKeys(xs, k);
      MeaningKeys(xs, k);
      CanonKeys(ys, k);
      MeaningKeys(ys, k);
      if k in c && k in d { MembersDecide(xs, ys, k); }
    }
    MapsAgree(c, d, m, n);
  }

  lemma MapsAgree(c: map<Key, Canonical>, d: map<Key, Canonical>, m: map<Key, Value>, n: map<Key, Value>)
    requires forall k :: (k in c <==> k in m) && (k in d <==> k in n)
    requires forall k | k in c && k in d :: c[k] == d[k] <==> m[k] == n[k]
    ensures c == d <==> m == n
  {
    if c == d {
      forall k | k in m ensures k in n && m[k] == n[k] { assert k in c; }
      forall k | k in n ensures k in m { assert k in d; }
    }
    if m == n {
      forall k | k in c ensures k in d && c[k] == d[k] { assert k in m; }
      forall k | k in d ensures k in c { assert k in n; }
    }
  }

  /** The member of `xs` named `k`, paired with the member of `ys` named `k`. */
  lemma {:induction false} MembersDecide(xs: seq<(Key, Json)>, ys: seq<(Key, Json)>, k: Key)
    requires NoMemberDuplicates(xs) && NoMemberDuplicates(ys)
    requires k in MapOf(CanonMembers(xs)) && k in MapOf(MemberMeanings(xs))
    requires k in MapOf(CanonMembers(ys)) && k in MapOf(MemberMeanings(ys))
    ensures MapOf(CanonMembers(xs))[k] == MapOf(CanonMembers(ys))[k] <==>
      MapOf(MemberMeanings(xs))[k] == MapOf(MemberMeanings(ys))[k]
    decreases xs, 1, |ys|
  {
    if xs[0].0 != k {
      MembersDecide(xs[1..], ys, k);
    } else if ys[0].0 != k {
      MembersDecide(xs, ys[1..], k);
    } else {
      MemberDecides(xs[0], ys[0]);
    }
  }

  lemma {:induction false} MemberDecides(x: (Key, Json), y: (Key, Json))
    requires MemberHasNoDuplicates(x) && MemberHasNoDuplicates(y)
    ensures Agree(x.1, y.1)
    decreases x, 1
  {
    CanonDecides(x.1, y.1);
  }
}
