/** When two JSON documents are the same, stated on the documents themselves. */
module JsonSame {
  import opened Ordering
  import opened CanonicalJson

  /** Equal types and scalars, arrays item by item, objects key by key in whatever order. */
  ghost predicate SameJson(a: Json, b: Json)
    decreases a, 0
  {
    match (a, b)
    case (Missing, Missing) => true
    case (Null, Null) => true
    case (Bool(x), Bool(y)) => x == y
    case (Int(x), Int(y)) => x == y
    case (Float(x), Float(y)) => x == y
    case (Str(x), Str(y)) => x == y
    case (Array(xs), Array(ys)) => |xs| == |ys| && forall i | 0 <= i < |xs| :: SameJson(xs[i], ys[i])
    case (Object(xs), Object(ys)) =>
      && (forall k :: HasKey(xs, k) <==> HasKey(ys, k))
      && forall i, j | 0 <= i < |xs| && 0 <= j < |ys| && xs[i].0 == ys[j].0 :: SameMember(xs[i], ys[j])
    case _ => false
  }

  ghost predicate SameMember(x: (Key, Json), y: (Key, Json))
    decreases x, 1
  {
    SameJson(x.1, y.1)
  }

  lemma {:induction false} ItemMeaningAt(items: seq<Json>, i: nat)
    requires i < |items|
    ensures ItemMeanings(items)[i] == Meaning(items[i])
  {
    if i > 0 { ItemMeaningAt(items[1..], i - 1); }
  }

  lemma {:induction false} ItemStrictAt(items: seq<Json>, i: nat)
    requires i < |items| && NoItemDuplicates(items)
    ensures NoDuplicates(items[i])
  {
    if i > 0 { ItemStrictAt(items[1..], i - 1); }
  }

  lemma {:induction false} MemberAt(members: seq<(Key, Json)>, i: nat)
    requires i < |members| && DistinctKeys(members)
    ensures members[i].0 in MapOf(MemberMeanings(members))
    ensures MapOf(MemberMeanings(members))[members[i].0] == Meaning(members[i].1)
    ensures NoMemberDuplicates(members) ==> MemberHasNoDuplicates(members[i])
  {
    if i > 0 {
      assert members[1..][i - 1] == members[i] && members[i] in members[1..];
      MemberAt(members[1..], i - 1);
    }
  }

  lemma {:induction false} KeyInMap(members: seq<(Key, Json)>, k: Key)
    ensures k in MapOf(MemberMeanings(members)) <==> HasKey(members, k)
  {
    if members != [] {
      assert members == [members[0]] + members[1..];
      HasKeyCons(members[0], members[1..], k);
      KeyInMap(members[1..], k);
    }
  }

  /** Two documents mean the same exactly when they are the same. */
  lemma {:induction false} MeaningIsSame(a: Json, b: Json)
    requires NoDuplicates(a) && NoDuplicates(b)
    ensures Meaning(a) == Meaning(b) <==> SameJson(a, b)
    decreases a, 0
  {
    match (a, b)
    case (Array(xs), Array(ys)) => ItemsAreSame(xs, ys);
    case (Object(xs), Object(ys)) => MembersAreSame(xs, ys);
    case _ =>
  }

  lemma {:induction false} ItemsAreSame(xs: seq<Json>, ys: seq<Json>)
    requires NoItemDuplicates(xs) && NoItemDuplicates(ys)
    ensures ItemMeanings(xs) == ItemMeanings(ys) <==>
      |xs| == |ys| && forall i | 0 <= i < |xs| :: SameJson(xs[i], ys[i])
    decreases xs, 1
  {
    if |xs| == |ys| {
      forall i | 0 <= i < |xs| ensures ItemMeanings(xs)[i] == ItemMeanings(ys)[i] <==> SameJson(xs[i], ys[i]) {
        ItemMeaningAt(xs, i);
        ItemMeaningAt(ys, i);
        ItemStrictAt(xs, i);
        ItemStrictAt(ys, i);
        MeaningIsSame(xs[i], ys[i]);
      }
      hide ItemMeanings, SameJson;
    }
  }

  lemma {:induction false} MembersAreSame(xs: seq<(Key, Json)>, ys: seq<(Key, Json)>)
    requires DistinctKeys(xs) && NoMemberDuplicates(xs) && DistinctKeys(ys) && NoMemberDuplicates(ys)
    ensures MapOf(MemberMeanings(xs)) == MapOf(MemberMeanings(ys)) <==>
      && (forall k :: HasKey(xs, k) <==> HasKey(ys, k))
      && forall i, j | 0 <= i < |xs| && 0 <= j < |ys| && xs[i].0 == ys[j].0 :: SameMember(xs[i], ys[j])
    decreases xs, 2
  {
    var m, n := MapOf(MemberMeanings(xs)), MapOf(MemberMeanings(ys));
    forall k ensures (k in m <==> HasKey(xs, k)) && (k in n <==> HasKey(ys, k)) {
      KeyInMap(xs, k);
      KeyInMap(ys, k);
    }
    forall i, j | 0 <= i < |xs| && 0 <= j < |ys| && xs[i].0 == ys[j].0
      ensures xs[i].0 in m && xs[i].0 in n && (m[xs[i].0] == n[xs[i].0] <==> SameMember(xs[i], ys[j]))
    {
      MemberAt(xs, i);
      MemberAt(ys, j);
      MemberIsSame(xs[i], ys[j]);
    }
    MapsAreSame(xs, ys, m, n);
  }

  lemma MapsAreSame(xs: seq<(Key, Json)>, ys: seq<(Key, Json)>, m: map<Key, Value>, n: map<Key, Value>)
    requires forall k :: (k in m <==> HasKey(xs, k)) && (k in n <==> HasKey(ys, k))
    requires forall i, j | 0 <= i < |xs| && 0 <= j < |ys| && xs[i].0 == ys[j].0 ::
      xs[i].0 in m && xs[i].0 in n && (m[xs[i].0] == n[xs[i].0] <==> SameMember(xs[i], ys[j]))
    ensures m == n <==>
      && (forall k :: HasKey(xs, k) <==> HasKey(ys, k))
      && forall i, j | 0 <= i < |xs| && 0 <= j < |ys| && xs[i].0 == ys[j].0 :: SameMember(xs[i], ys[j])
  {
    hide SameMember;
    if (forall k :: HasKey(xs, k) <==> HasKey(ys, k)) &&
       forall i, j | 0 <= i < |xs| && 0 <= j < |ys| && xs[i].0 == ys[j].0 :: SameMember(xs[i], ys[j]) {
      forall k | k in m ensures k in n && m[k] == n[k] {
        var x :| x in xs && x.0 == k;
        var y :| y in ys && y.0 == k;
        var i :| 0 <= i < |xs| && xs[i] == x;
        var j :| 0 <= j < |ys| && ys[j] == y;
        assert SameMember(xs[i], ys[j]);
      }
    }
  }

  lemma {:induction false} MemberIsSame(x: (Key, Json), y: (Key, Json))
    requires MemberHasNoDuplicates(x) && MemberHasNoDuplicates(y)
    ensures Meaning(x.1) == Meaning(y.1) <==> SameMember(x, y)
    decreases x, 1
  {
    MeaningIsSame(x.1, y.1);
  }
}
