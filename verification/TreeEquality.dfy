/** What cJSON_Compare means: equality of values up to the order of members. */
module TreeEquality {
  import opened Bytes
  import opened Values
  import opened Memory
  import opened Items
  import opened Compare
  import opened Numbers

  // ----- the reference definition -----

  /** `p` maps 0..n one to one onto itself. */
  predicate Arrangement(p: seq<nat>, n: nat) {
    |p| == n && (forall i :: 0 <= i < n ==> p[i] < n) && forall i, j :: 0 <= i < j < n ==> p[i] != p[j]
  }

  predicate EqualKeys(m: Option<bytes>, n: Option<bytes>, caseSensitive: bool) {
    m.Some? && n.Some? && EqualText(m.value, n.value, caseSensitive)
  }

  /** Equal values: numbers as numbers, objects up to the order of their members. */
  ghost predicate EqualTrees(x: Json, y: Json, caseSensitive: bool)
    decreases x
  {
    match (x, y)
    case (Number(d), Number(e)) => SameNumber(d, e)
    case (String(s), String(t)) => s == t
    case (Raw(s), Raw(t)) => s == t
    case (Array(xs), Array(ys)) => |xs| == |ys| && forall i :: 0 <= i < |xs| ==> EqualTrees(xs[i], ys[i], caseSensitive)
    case (Object(xs), Object(ys)) => |xs| == |ys| && exists p: seq<nat> ::
      Arrangement(p, |xs|) && Paired(xs, ys, p, caseSensitive)
    case _ => x == y
  }

  ghost predicate Paired(xs: seq<Member>, ys: seq<Member>, p: seq<nat>, caseSensitive: bool)
    requires Arrangement(p, |xs|) && |ys| == |xs|
    decreases xs
  {
    forall i :: 0 <= i < |xs| ==> EqualMembers(xs[i], ys[p[i]], caseSensitive)
  }

  ghost predicate EqualMembers(m: Member, n: Member, caseSensitive: bool)
    decreases m
  {
    EqualKeys(m.key, n.key, caseSensitive) && EqualTrees(m.value, n.value, caseSensitive)
  }

  /** Values that JSON can express, in which every key can be found. */
  predicate Plain(j: Json, caseSensitive: bool)
    decreases j
  {
    match j
    case Invalid => false
    case Number(d) => !d.NaN?
    case String(s) => s.Some?
    case Raw(s) => s.Some?
    case Array(items) => forall i :: 0 <= i < |items| ==> Plain(items[i], caseSensitive)
    case Object(members) =>
      (forall i :: 0 <= i < |members| ==> members[i].key.Some? && Plain(members[i].value, caseSensitive)) &&
      (forall i, j :: 0 <= i < j < |members| ==> !EqualKeys(members[i].key, members[j].key, caseSensitive))
    case _ => true
  }

  // ----- arrangements -----

  lemma {:induction false} Pigeonhole(p: seq<nat>, n: nat)
    requires forall i :: 0 <= i < |p| ==> p[i] < n
    requires forall i, j :: 0 <= i < j < |p| ==> p[i] != p[j]
    ensures |p| <= n
    decreases n
  {
    if |p| > 0 {
      if n - 1 in p {
        var k :| 0 <= k < |p| && p[k] == n - 1;
        var q := p[..k] + p[k + 1..];
        assert forall i :: 0 <= i < |q| ==> q[i] == if i < k then p[i] else p[i + 1];
        Pigeonhole(q, n - 1);
      } else {
        Pigeonhole(p, n - 1);
      }
    }
  }

  /** A one-to-one map of 0..n to itself hits everything. */
  lemma Onto(p: seq<nat>, n: nat, k: nat)
    requires Arrangement(p, n) && k < n
    ensures k in p
  {
    if k !in p {
      var q := p + [k];
      Pigeonhole(q, n);
    }
  }

  lemma {:induction false} Reflexive(j: Json, caseSensitive: bool)
    requires Plain(j, caseSensitive)
    ensures EqualTrees(j, j, caseSensitive)
    decreases j
  {
    match j
    case Array(items) =>
      forall i | 0 <= i < |items| ensures EqualTrees(items[i], items[i], caseSensitive) {
        Reflexive(items[i], caseSensitive);
      }
    case Object(members) =>
      var p := seq(|members|, i requires 0 <= i < |members| => i);
      forall i | 0 <= i < |members| ensures EqualMembers(members[i], members[p[i]], caseSensitive) {
        Reflexive(members[i].value, caseSensitive);
      }
      assert Paired(members, members, p, caseSensitive);
    case _ =>
  }

  // ----- nodes and the values they stand for -----

  lemma {:induction false} MeaningAt(items: seq<Item>, i: nat)
    requires i < |items|
    ensures Meanings(items)[i] == Meaning(items[i])
    ensures MemberMeanings(items)[i] == Member(Chars(items[i].name), Meaning(items[i]))
  {
    if i < |items| - 1 {
      MeaningAt(items[..|items| - 1], i);
    }
  }

  lemma MeaningsAt(items: seq<Item>)
    ensures forall i :: 0 <= i < |items| ==> Meanings(items)[i] == Meaning(items[i])
    ensures forall i :: 0 <= i < |items| ==> MemberMeanings(items)[i] == Member(Chars(items[i].name), Meaning(items[i]))
  {
    forall i | 0 <= i < |items|
      ensures Meanings(items)[i] == Meaning(items[i]) &&
              MemberMeanings(items)[i] == Member(Chars(items[i].name), Meaning(items[i]))
    {
      MeaningAt(items, i);
    }
  }

  /** The keys of the members of a plain object. */
  predicate DistinctKeys(kids: seq<Item>, caseSensitive: bool) {
    Named(kids) &&
    forall i, j :: 0 <= i < j < |kids| ==> !SameKey(kids[i].name.value.chars, kids[j].name.value.chars, caseSensitive)
  }

  lemma PlainKids(item: Item, caseSensitive: bool)
    requires Plain(Meaning(item), caseSensitive)
    ensures item.kind == ArrayKind || item.kind == ObjectKind ==>
              forall i :: 0 <= i < |item.kids| ==> Plain(Meaning(item.kids[i]), caseSensitive)
    ensures item.kind == ObjectKind ==> DistinctKeys(item.kids, caseSensitive)
  {
    MeaningsAt(item.kids);
    if item.kind == ObjectKind {
      var members := MemberMeanings(item.kids);
      assert Meaning(item) == Object(members);
      forall i, j | 0 <= i < j < |item.kids|
        ensures item.kids[i].name.Some? && item.kids[j].name.Some?
        ensures !SameKey(item.kids[i].name.value.chars, item.kids[j].name.value.chars, caseSensitive)
      {
        assert !EqualKeys(members[i].key, members[j].key, caseSensitive);
        SameKeyIsEqualText(members[i].key.value, members[j].key.value, caseSensitive);
      }
      assert forall i :: 0 <= i < |item.kids| ==> members[i].key.Some?;
    }
  }

  /** With distinct keys, the first member with a key is the only one. */
  lemma LookupOnly(kids: seq<Item>, name: bytes, k: nat, caseSensitive: bool)
    requires DistinctKeys(kids, caseSensitive) && k < |kids| && Matches(kids[k], name, caseSensitive)
    ensures Lookup(kids, name, caseSensitive) == Some(k)
  {
    LookupFirst(kids, name, caseSensitive);
    var r := Lookup(kids, name, caseSensitive);
    assert r.Some?;
    assert SameKey(kids[r.value].name.value.chars, kids[k].name.value.chars, caseSensitive);
  }

  // ----- what Compare accepts is equal -----

  /** Where the members of `a` are found in `b`. */
  function Places(xs: seq<Item>, ys: seq<Item>, caseSensitive: bool): (p: seq<nat>)
    requires forall i :: 0 <= i < |xs| ==> Has(ys, xs[i], caseSensitive)
    ensures |p| == |xs|
    ensures forall i :: 0 <= i < |xs| ==>
            xs[i].name.Some? && Lookup(ys, xs[i].name.value.chars, caseSensitive) == Some(p[i])
  {
    seq(|xs|, i requires 0 <= i < |xs| && Has(ys, xs[i], caseSensitive) =>
      Lookup(ys, xs[i].name.value.chars, caseSensitive).value)
  }

  /** Distinct keys are found in distinct places. */
  lemma PlacesDiffer(xs: seq<Item>, ys: seq<Item>, caseSensitive: bool)
    requires forall i :: 0 <= i < |xs| ==> Has(ys, xs[i], caseSensitive)
    requires DistinctKeys(xs, caseSensitive)
    ensures |xs| <= |ys|
    ensures |xs| == |ys| ==> Arrangement(Places(xs, ys, caseSensitive), |xs|)
  {
    var p := Places(xs, ys, caseSensitive);
    forall i | 0 <= i < |xs| ensures p[i] < |ys| && Matches(ys[p[i]], xs[i].name.value.chars, caseSensitive) {
      LookupFirst(ys, xs[i].name.value.chars, caseSensitive);
    }
    forall i, j | 0 <= i < j < |xs| ensures p[i] != p[j] {
      assert !SameKey(xs[i].name.value.chars, xs[j].name.value.chars, caseSensitive);
    }
    Pigeonhole(p, |ys|);
  }

  lemma {:induction false} CompareMeansEqual(at: map<Address, Item>, a: Item, b: Item, caseSensitive: bool)
    requires Stored(at, a) && Stored(at, b) && Same(a, b, caseSensitive)
    requires Plain(Meaning(a), caseSensitive) && Plain(Meaning(b), caseSensitive)
    ensures EqualTrees(Meaning(a), Meaning(b), caseSensitive)
    decreases Nodes(a) + Nodes(b)
  {
    if a.address == b.address {
      Reflexive(Meaning(a), caseSensitive);
    } else if a.kind == NumberKind {
      EqualsIsSameNumber(a.valuedouble, b.valuedouble);
    } else if a.kind == ArrayKind {
      PlainKids(a, caseSensitive);
      PlainKids(b, caseSensitive);
      MeaningsAt(a.kids);
      MeaningsAt(b.kids);
      forall i | 0 <= i < |a.kids| ensures EqualTrees(Meanings(a.kids)[i], Meanings(b.kids)[i], caseSensitive) {
        NodesAt(a.kids, i);
        NodesAt(b.kids, i);
        CompareMeansEqual(at, a.kids[i], b.kids[i], caseSensitive);
      }
    } else if a.kind == ObjectKind {
      ObjectsMeanEqual(at, a, b, caseSensitive);
    }
  }

  lemma {:induction false} ObjectsMeanEqual(at: map<Address, Item>, a: Item, b: Item, caseSensitive: bool)
    requires Stored(at, a) && Stored(at, b) && Same(a, b, caseSensitive) && a.kind == ObjectKind &&
             a.address != b.address
    requires Plain(Meaning(a), caseSensitive) && Plain(Meaning(b), caseSensitive)
    ensures EqualTrees(Meaning(a), Meaning(b), caseSensitive)
    decreases Nodes(a) + Nodes(b), 1
  {
    hide Plain, Stored, Lookup, Has, EqualMembers, DistinctKeys, EqualKeys, Nodes;
    PlainKids(a, caseSensitive);
    PlainKids(b, caseSensitive);
    PlacesDiffer(a.kids, b.kids, caseSensitive);
    PlacesDiffer(b.kids, a.kids, caseSensitive);
    var p := Places(a.kids, b.kids, caseSensitive);
    var xs, ys := MemberMeanings(a.kids), MemberMeanings(b.kids);
    MeaningsAt(a.kids);
    MeaningsAt(b.kids);
    forall i | 0 <= i < |xs| ensures EqualMembers(xs[i], ys[p[i]], caseSensitive) {
      MemberMeansEqual(at, a, b, i, caseSensitive);
    }
    assert Paired(xs, ys, p, caseSensitive);
  }

  lemma {:induction false} MemberMeansEqual(at: map<Address, Item>, a: Item, b: Item, i: nat, caseSensitive: bool)
    requires Stored(at, a) && Stored(at, b) && i < |a.kids| && Has(b.kids, a.kids[i], caseSensitive)
    requires Plain(Meaning(a.kids[i]), caseSensitive)
    requires forall j :: 0 <= j < |b.kids| ==> Plain(Meaning(b.kids[j]), caseSensitive)
    ensures var j := Lookup(b.kids, a.kids[i].name.value.chars, caseSensitive).value;
            j < |b.kids| && EqualMembers(MemberMeanings(a.kids)[i], MemberMeanings(b.kids)[j], caseSensitive)
    decreases Nodes(a) + Nodes(b), 0
  {
    var name := a.kids[i].name.value.chars;
    LookupFirst(b.kids, name, caseSensitive);
    var j := Lookup(b.kids, name, caseSensitive).value;
    MeaningAt(a.kids, i);
    MeaningAt(b.kids, j);
    NodesAt(a.kids, i);
    NodesAt(b.kids, j);
    SameKeyIsEqualText(name, b.kids[j].name.value.chars, caseSensitive);
    CompareMeansEqual(at, a.kids[i], b.kids[j], caseSensitive);
  }

  // ----- what is equal, Compare accepts -----

  lemma {:induction false} EqualCompares(a: Item, b: Item, caseSensitive: bool)
    requires EqualTrees(Meaning(a), Meaning(b), caseSensitive)
    requires Plain(Meaning(a), caseSensitive) && Plain(Meaning(b), caseSensitive)
    ensures Same(a, b, caseSensitive)
    decreases Nodes(a) + Nodes(b)
  {
    if a.kind == ArrayKind && b.kind == ArrayKind {
      PlainKids(a, caseSensitive);
      PlainKids(b, caseSensitive);
      MeaningsAt(a.kids);
      MeaningsAt(b.kids);
      forall i | 0 <= i < |a.kids| ensures Same(a.kids[i], b.kids[i], caseSensitive) {
        assert EqualTrees(Meanings(a.kids)[i], Meanings(b.kids)[i], caseSensitive);
        NodesAt(a.kids, i);
        NodesAt(b.kids, i);
        EqualCompares(a.kids[i], b.kids[i], caseSensitive);
      }
    } else if a.kind == ObjectKind && b.kind == ObjectKind {
      EqualObjectsCompare(a, b, caseSensitive);
    } else if a.kind == NumberKind && b.kind == NumberKind {
      EqualsIsSameNumber(a.valuedouble, b.valuedouble);
    }
  }

  lemma {:induction false} EqualObjectsCompare(a: Item, b: Item, caseSensitive: bool)
    requires EqualTrees(Meaning(a), Meaning(b), caseSensitive) && a.kind == ObjectKind && b.kind == ObjectKind
    requires Plain(Meaning(a), caseSensitive) && Plain(Meaning(b), caseSensitive)
    ensures Same(a, b, caseSensitive)
    decreases Nodes(a) + Nodes(b), 0
  {
    PlainKids(a, caseSensitive);
    PlainKids(b, caseSensitive);
    MeaningsAt(a.kids);
    MeaningsAt(b.kids);
    var xs, ys := MemberMeanings(a.kids), MemberMeanings(b.kids);
    var p: seq<nat> :| Arrangement(p, |xs|) && Paired(xs, ys, p, caseSensitive);
    forall i | 0 <= i < |a.kids|
      ensures Has(b.kids, a.kids[i], caseSensitive) && Has(a.kids, b.kids[p[i]], caseSensitive)
    {
      assert EqualMembers(xs[i], ys[p[i]], caseSensitive);
      SameKeyIsEqualText(xs[i].key.value, ys[p[i]].key.value, caseSensitive);
      LookupOnly(b.kids, a.kids[i].name.value.chars, p[i], caseSensitive);
      LookupOnly(a.kids, b.kids[p[i]].name.value.chars, i, caseSensitive);
      NodesAt(a.kids, i);
      NodesAt(b.kids, p[i]);
      EqualCompares(a.kids[i], b.kids[p[i]], caseSensitive);
      CompareIsSymmetric(a.kids[i], b.kids[p[i]], caseSensitive);
    }
    forall k | 0 <= k < |b.kids| ensures Has(a.kids, b.kids[k], caseSensitive) {
      Onto(p, |b.kids|, k);
    }
  }

  // ----- what is equal to nothing -----

  /** The value holds something that is equal to nothing: no type, NaN, an absent string, or a member without a key. */
  predicate Unequal(j: Json)
    decreases j
  {
    match j
    case Invalid => true
    case Number(d) => d.NaN?
    case String(s) => s == None
    case Raw(s) => s == None
    case Array(items) => exists i :: 0 <= i < |items| && Unequal(items[i])
    case Object(members) => exists i :: 0 <= i < |members| && (members[i].key == None || Unequal(members[i].value))
    case _ => false
  }

  predicate Within(addresses: set<Address>, item: Item)
    decreases item
  {
    item.address in addresses && forall i :: 0 <= i < |item.kids| ==> Within(addresses, item.kids[i])
  }

  /** Trees that share no node do not compare equal if one of them holds such a thing. */
  lemma {:induction false} UnequalToAll(a: Item, b: Item, left: set<Address>, right: set<Address>, caseSensitive: bool)
    requires Within(left, a) && Within(right, b) && left !! right && Unequal(Meaning(a))
    ensures !Same(a, b, caseSensitive) && !Same(b, a, caseSensitive)
    decreases a
  {
    CompareIsSymmetric(a, b, caseSensitive);
    MeaningsAt(a.kids);
    if a.kind == NumberKind && b.kind == NumberKind {
      EqualsIsSameNumber(a.valuedouble, b.valuedouble);
    } else if a.kind == ArrayKind && Same(a, b, caseSensitive) {
      var i :| 0 <= i < |a.kids| && Unequal(Meanings(a.kids)[i]);
      UnequalToAll(a.kids[i], b.kids[i], left, right, caseSensitive);
    } else if a.kind == ObjectKind && Same(a, b, caseSensitive) {
      var members := MemberMeanings(a.kids);
      var i :| 0 <= i < |members| && (members[i].key == None || Unequal(members[i].value));
      var x := a.kids[i];
      assert Has(b.kids, x, caseSensitive);
      LookupFirst(b.kids, x.name.value.chars, caseSensitive);
      var j := Lookup(b.kids, x.name.value.chars, caseSensitive).value;
      UnequalToAll(x, b.kids[j], left, right, caseSensitive);
    }
  }

  // ----- the theorems -----

  /** On plain trees cJSON_Compare decides equality up to the order of members. */
  lemma CompareIsEquality(at: map<Address, Item>, a: Item, b: Item, caseSensitive: bool)
    requires Stored(at, a) && Stored(at, b)
    requires Plain(Meaning(a), caseSensitive) && Plain(Meaning(b), caseSensitive)
    ensures Same(a, b, caseSensitive) <==> EqualTrees(Meaning(a), Meaning(b), caseSensitive)
  {
    if Same(a, b, caseSensitive) {
      CompareMeansEqual(at, a, b, caseSensitive);
    } else if EqualTrees(Meaning(a), Meaning(b), caseSensitive) {
      EqualCompares(a, b, caseSensitive);
    }
  }

  /** A deep duplicate of a plain tree compares equal to it. */
  lemma DuplicateComparesEqual(item: Item, copy: Item, caseSensitive: bool)
    requires CopyOf(item, copy, true) && Plain(Meaning(item), caseSensitive)
    ensures Same(item, copy, caseSensitive)
  {
    CopyMeaning(item, copy);
    Reflexive(Meaning(item), caseSensitive);
    EqualCompares(item, copy, caseSensitive);
  }
}
