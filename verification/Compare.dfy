/** cJSON_Compare: the loops, the relation they decide, and what that relation means. */
module Compare {
  import opened Bytes
  import opened Values
  import opened Memory
  import opened Items

  // ----- keys -----

  /** tolower in the C locale. */
  function Lower(b: byte): byte {
    if 0x41 <= b <= 0x5A then b + 0x20 else b
  }

  /** What two keys must share to be the same key. */
  function Folded(s: bytes, caseSensitive: bool): (r: bytes)
    ensures |r| == |s|
  {
    if caseSensitive then s else seq(|s|, i requires 0 <= i < |s| => Lower(s[i]))
  }

  predicate SameKey(s: bytes, t: bytes, caseSensitive: bool) {
    Folded(s, caseSensitive) == Folded(t, caseSensitive)
  }

  predicate Letter(b: byte) { 0x41 <= b <= 0x5A || 0x61 <= b <= 0x7A }

  /** The same character, or the two cases of one letter. */
  predicate SameLetter(b: byte, c: byte) {
    b == c || (Letter(b) && Letter(c) && (b == c + 0x20 || c == b + 0x20))
  }

  /** Two keys that are one key, in either reading. */
  predicate EqualText(s: bytes, t: bytes, caseSensitive: bool) {
    if caseSensitive then s == t
    else |s| == |t| && forall i :: 0 <= i < |s| ==> SameLetter(s[i], t[i])
  }

  lemma SameKeyIsEqualText(s: bytes, t: bytes, caseSensitive: bool)
    ensures SameKey(s, t, caseSensitive) <==> EqualText(s, t, caseSensitive)
  {
    if !caseSensitive && |s| == |t| {
      forall i | 0 <= i < |s|
        ensures Folded(s, false)[i] == Folded(t, false)[i] <==> SameLetter(s[i], t[i])
      {
      }
    }
  }

  /** A C string's byte at `i`, which may be its terminator. */
  function CharAt(s: bytes, i: nat): byte {
    if i < |s| then s[i] else NUL
  }

  /** case_insensitive_strcmp; two NULL pointers are different. */
  method CaseInsensitiveStrcmp(s: Option<bytes>, t: Option<bytes>) returns (d: int)
    requires (s.Some? ==> NulFree(s.value)) && (t.Some? ==> NulFree(t.value))
    ensures d == 0 <==> s.Some? && t.Some? && SameKey(s.value, t.value, false)
    ensures d == 0 <==> s.Some? && t.Some? && EqualText(s.value, t.value, false)
  {
    if s.Some? && t.Some? {
      SameKeyIsEqualText(s.value, t.value, false);
    }
    if s == None || t == None {
      return 1;
    }
    var x, y := s.value, t.value;
    var i := 0;
    while Lower(CharAt(x, i)) == Lower(CharAt(y, i))
      invariant i <= |x| && i <= |y|
      invariant forall j :: 0 <= j < i ==> Lower(x[j]) == Lower(y[j])
      decreases |x| - i
    {
      if CharAt(x, i) == NUL {
        return 0;
      }
      i := i + 1;
    }
    d := Lower(CharAt(x, i)) - Lower(CharAt(y, i));
    if i < |x| && i < |y| {
      assert Folded(x, false)[i] != Folded(y, false)[i];
    }
  }

  // ----- get_object_item -----

  /** The first member with the key; a search that minds case stops at a member without one. */
  function Lookup(kids: seq<Item>, name: bytes, caseSensitive: bool): Option<nat> {
    if |kids| == 0 then None
    else if kids[0].name.Some? && SameKey(name, kids[0].name.value.chars, caseSensitive) then Some(0)
    else if kids[0].name == None && caseSensitive then None
    else match Lookup(kids[1..], name, caseSensitive) case None => None case Some(i) => Some(i + 1)
  }

  predicate Matches(kid: Item, name: bytes, caseSensitive: bool) {
    kid.name.Some? && SameKey(name, kid.name.value.chars, caseSensitive)
  }

  predicate Named(kids: seq<Item>) {
    forall i :: 0 <= i < |kids| ==> kids[i].name.Some?
  }

  /** The first member with the key; a search that minds case must not pass a member without one. */
  predicate IsFound(kids: seq<Item>, name: bytes, caseSensitive: bool, i: nat) {
    i < |kids| && Matches(kids[i], name, caseSensitive) &&
    forall j :: 0 <= j < i ==>
      !Matches(kids[j], name, caseSensitive) && (caseSensitive ==> kids[j].name.Some?)
  }

  lemma {:induction false} LookupFirst(kids: seq<Item>, name: bytes, caseSensitive: bool)
    ensures var r := Lookup(kids, name, caseSensitive);
            r.Some? ==> IsFound(kids, name, caseSensitive, r.value)
    ensures forall i: nat :: IsFound(kids, name, caseSensitive, i) ==> Lookup(kids, name, caseSensitive) == Some(i)
    ensures Named(kids) && Lookup(kids, name, caseSensitive) == None ==>
              forall i :: 0 <= i < |kids| ==> !Matches(kids[i], name, caseSensitive)
  {
    if |kids| > 0 {
      LookupFirst(kids[1..], name, caseSensitive);
      assert forall i :: 0 < i < |kids| ==> kids[i] == kids[1..][i - 1];
      forall i: nat | IsFound(kids, name, caseSensitive, i) ensures Lookup(kids, name, caseSensitive) == Some(i) {
        if i > 0 {
          assert !Matches(kids[0], name, caseSensitive) && (caseSensitive ==> kids[0].name.Some?);
          assert IsFound(kids[1..], name, caseSensitive, i - 1);
        }
      }
    }
  }

  /** The search depends on the folded name only. */
  lemma {:induction false} LookupByKey(kids: seq<Item>, name: bytes, other: bytes, caseSensitive: bool)
    requires SameKey(name, other, caseSensitive)
    ensures Lookup(kids, name, caseSensitive) == Lookup(kids, other, caseSensitive)
  {
    if |kids| > 0 {
      LookupByKey(kids[1..], name, other, caseSensitive);
    }
  }

  /** A tree whose keys are C strings. */
  predicate CKeys(item: Item)
    decreases item
  {
    (item.name.Some? ==> NulFree(item.name.value.chars)) && forall i :: 0 <= i < |item.kids| ==> CKeys(item.kids[i])
  }

  method GetObjectItem(kids: seq<Item>, name: Option<Text>, caseSensitive: bool) returns (r: Option<nat>)
    requires name.Some? ==> NulFree(name.value.chars)
    requires forall i :: 0 <= i < |kids| && kids[i].name.Some? ==> NulFree(kids[i].name.value.chars)
    ensures r == if name == None then None else Lookup(kids, name.value.chars, caseSensitive)
  {
    if name == None {
      return None;
    }
    var i := 0;
    ghost var found := Lookup(kids, name.value.chars, caseSensitive);
    assert kids[0..] == kids;
    if caseSensitive {
      while i < |kids| && kids[i].name.Some? && name.value.chars != kids[i].name.value.chars
        invariant i <= |kids| && Ahead(found, i, Lookup(kids[i..], name.value.chars, caseSensitive))
      {
        assert kids[i..][1..] == kids[i + 1..];
        i := i + 1;
      }
    } else {
      while i < |kids|
        invariant i <= |kids| && Ahead(found, i, Lookup(kids[i..], name.value.chars, caseSensitive))
      {
        var d := CaseInsensitiveStrcmp(Some(name.value.chars), Chars(kids[i].name));
        if d == 0 {
          break;
        }
        assert kids[i..][1..] == kids[i + 1..];
        i := i + 1;
      }
    }
    if i == |kids| || kids[i].name == None {
      return None;
    }
    return Some(i);
  }

  /** A position in the list, given the position in what is left behind the first `i`. */
  predicate Ahead(found: Option<nat>, i: nat, rest: Option<nat>) {
    match rest case None => found == None case Some(j) => found == Some(i + j)
  }

  // ----- the relation -----

  function Nodes(item: Item): (n: nat)
    ensures n > 0
    decreases item, 0
  {
    1 + NodesOf(item.kids)
  }

  function NodesOf(items: seq<Item>): nat
    decreases items, 1
  {
    if |items| == 0 then 0 else Nodes(items[0]) + NodesOf(items[1..])
  }

  lemma {:induction false} NodesAt(items: seq<Item>, i: nat)
    requires i < |items|
    ensures Nodes(items[i]) <= NodesOf(items)
  {
    if i > 0 {
      NodesAt(items[1..], i - 1);
    }
  }

  /** What cJSON_Compare decides. */
  predicate Same(a: Item, b: Item, caseSensitive: bool)
    decreases Nodes(a) + Nodes(b), 0
  {
    a.kind == b.kind && a.kind != InvalidKind &&
    (a.address == b.address ||
     match a.kind
     case NumberKind => a.valuedouble.Equals(b.valuedouble)
     case StringKind => a.valuestring.Some? && b.valuestring.Some? &&
       a.valuestring.value.chars == b.valuestring.value.chars
     case RawKind => a.valuestring.Some? && b.valuestring.Some? &&
       a.valuestring.value.chars == b.valuestring.value.chars
     case ArrayKind =>
       |a.kids| == |b.kids| &&
       forall i :: 0 <= i < |a.kids| ==>
         (NodesAt(a.kids, i); NodesAt(b.kids, i); Same(a.kids[i], b.kids[i], caseSensitive))
     case ObjectKind =>
       (forall i :: 0 <= i < |a.kids| ==> (NodesAt(a.kids, i); Has(b.kids, a.kids[i], caseSensitive))) &&
       (forall i :: 0 <= i < |b.kids| ==> (NodesAt(b.kids, i); Has(a.kids, b.kids[i], caseSensitive)))
     case _ => true)
  }

  /** The first member with the key of `x` compares equal to `x`. */
  predicate Has(kids: seq<Item>, x: Item, caseSensitive: bool)
    decreases Nodes(x) + NodesOf(kids), 1
  {
    x.name.Some? &&
    var r := Lookup(kids, x.name.value.chars, caseSensitive);
    LookupFirst(kids, x.name.value.chars, caseSensitive);
    r.Some? && (NodesAt(kids, r.value); Same(x, kids[r.value], caseSensitive))
  }

  // ----- the loops -----

  /** cJSON_Compare. */
  method Compare(a: Option<Item>, b: Option<Item>, caseSensitive: bool) returns (r: bool)
    requires (a.Some? ==> CKeys(a.value)) && (b.Some? ==> CKeys(b.value))
    ensures r <==> a.Some? && b.Some? && Same(a.value, b.value, caseSensitive)
    decreases (if a.Some? then Nodes(a.value) else 0) + (if b.Some? then Nodes(b.value) else 0), 0
  {
    if a == None || b == None || a.value.kind != b.value.kind || a.value.kind == InvalidKind {
      return false;
    }
    var x, y := a.value, b.value;
    if x.address == y.address {
      return true;
    }
    match x.kind {
      case NumberKind =>
        r := x.valuedouble.Equals(y.valuedouble);
      case StringKind =>
        r := x.valuestring.Some? && y.valuestring.Some? && x.valuestring.value.chars == y.valuestring.value.chars;
      case RawKind =>
        r := x.valuestring.Some? && y.valuestring.Some? && x.valuestring.value.chars == y.valuestring.value.chars;
      case ArrayKind =>
        r := CompareArrays(x, y, caseSensitive);
      case ObjectKind =>
        r := AllIn(x.kids, y.kids, caseSensitive);
        if r {
          r := AllIn(y.kids, x.kids, caseSensitive);
        }
      case _ =>
        r := true;
    }
  }

  /** The two cursors that walk along two arrays. */
  method CompareArrays(a: Item, b: Item, caseSensitive: bool) returns (r: bool)
    requires CKeys(a) && CKeys(b)
    ensures r <==> |a.kids| == |b.kids| && forall i :: 0 <= i < |a.kids| ==> Same(a.kids[i], b.kids[i], caseSensitive)
    decreases NodesOf(a.kids) + NodesOf(b.kids), 1
  {
    var i := 0;
    while i < |a.kids| && i < |b.kids|
      invariant i <= |a.kids| && i <= |b.kids|
      invariant forall j :: 0 <= j < i ==> Same(a.kids[j], b.kids[j], caseSensitive)
      decreases |a.kids| - i
    {
      NodesAt(a.kids, i);
      NodesAt(b.kids, i);
      var same := Compare(Some(a.kids[i]), Some(b.kids[i]), caseSensitive);
      if !same {
        return false;
      }
      i := i + 1;
    }
    r := i == |a.kids| && i == |b.kids|;
  }

  /** One of the two loops over members. */
  method AllIn(xs: seq<Item>, ys: seq<Item>, caseSensitive: bool) returns (r: bool)
    requires forall i :: 0 <= i < |xs| ==> CKeys(xs[i])
    requires forall i :: 0 <= i < |ys| ==> CKeys(ys[i])
    ensures r <==> forall i :: 0 <= i < |xs| ==> Has(ys, xs[i], caseSensitive)
    decreases NodesOf(xs) + NodesOf(ys), 1
  {
    var i := 0;
    while i < |xs|
      invariant i <= |xs|
      invariant forall j :: 0 <= j < i ==> Has(ys, xs[j], caseSensitive)
    {
      var found := GetObjectItem(ys, xs[i].name, caseSensitive);
      if found == None {
        return false;
      }
      LookupFirst(ys, xs[i].name.value.chars, caseSensitive);
      NodesAt(xs, i);
      NodesAt(ys, found.value);
      var same := Compare(Some(xs[i]), Some(ys[found.value]), caseSensitive);
      if !same {
        return false;
      }
      i := i + 1;
    }
    return true;
  }

  // ----- symmetry and transitivity -----

  /** A node compares equal to itself, whatever is in it, unless it has no type. */
  lemma ComparesToItself(a: Item, caseSensitive: bool)
    ensures Same(a, a, caseSensitive) <==> a.kind != InvalidKind
  {
  }

  lemma {:induction false} CompareIsSymmetric(a: Item, b: Item, caseSensitive: bool)
    ensures Same(a, b, caseSensitive) == Same(b, a, caseSensitive)
    decreases Nodes(a) + Nodes(b)
  {
    if a.kind == ArrayKind && b.kind == ArrayKind && |a.kids| == |b.kids| {
      forall i | 0 <= i < |a.kids|
        ensures Same(a.kids[i], b.kids[i], caseSensitive) == Same(b.kids[i], a.kids[i], caseSensitive)
      {
        NodesAt(a.kids, i);
        NodesAt(b.kids, i);
        CompareIsSymmetric(a.kids[i], b.kids[i], caseSensitive);
      }
    }
  }

  /** All nodes of the tree are in memory `at` their addresses. */
  ghost predicate Stored(at: map<Address, Item>, item: Item)
    decreases item
  {
    item.address in at && at[item.address] == item && forall i :: 0 <= i < |item.kids| ==> Stored(at, item.kids[i])
  }

  /** For any three trees in one memory, which may share nodes. */
  lemma {:induction false} CompareIsTransitive(at: map<Address, Item>, a: Item, b: Item, c: Item, caseSensitive: bool)
    requires Stored(at, a) && Stored(at, b) && Stored(at, c)
    requires Same(a, b, caseSensitive) && Same(b, c, caseSensitive)
    ensures Same(a, c, caseSensitive)
    decreases Nodes(a) + Nodes(b) + Nodes(c)
  {
    if a.address != b.address && b.address != c.address && a.address != c.address {
      if a.kind == ArrayKind {
        forall i | 0 <= i < |a.kids| ensures Same(a.kids[i], c.kids[i], caseSensitive) {
          NodesAt(a.kids, i);
          NodesAt(b.kids, i);
          NodesAt(c.kids, i);
          CompareIsTransitive(at, a.kids[i], b.kids[i], c.kids[i], caseSensitive);
        }
      } else if a.kind == ObjectKind {
        forall i | 0 <= i < |a.kids| ensures Has(c.kids, a.kids[i], caseSensitive) {
          MemberTransitive(at, a, b, c, i, caseSensitive);
        }
        CompareIsSymmetric(a, b, caseSensitive);
        CompareIsSymmetric(b, c, caseSensitive);
        forall i | 0 <= i < |c.kids| ensures Has(a.kids, c.kids[i], caseSensitive) {
          MemberTransitive(at, c, b, a, i, caseSensitive);
        }
      }
    }
  }

  lemma {:induction false} MemberTransitive(at: map<Address, Item>, a: Item, b: Item, c: Item, i: nat,
      caseSensitive: bool)
    requires Stored(at, a) && Stored(at, b) && Stored(at, c) && i < |a.kids|
    requires forall j :: 0 <= j < |a.kids| ==> Has(b.kids, a.kids[j], caseSensitive)
    requires forall j :: 0 <= j < |b.kids| ==> Has(c.kids, b.kids[j], caseSensitive)
    ensures Has(c.kids, a.kids[i], caseSensitive)
    decreases Nodes(a) + Nodes(b) + Nodes(c), 0
  {
    var x := a.kids[i];
    assert Has(b.kids, x, caseSensitive);
    LookupFirst(b.kids, x.name.value.chars, caseSensitive);
    var j := Lookup(b.kids, x.name.value.chars, caseSensitive).value;
    var y := b.kids[j];
    assert Has(c.kids, y, caseSensitive);
    LookupFirst(c.kids, y.name.value.chars, caseSensitive);
    LookupByKey(c.kids, x.name.value.chars, y.name.value.chars, caseSensitive);
    var k := Lookup(c.kids, y.name.value.chars, caseSensitive).value;
    NodesAt(a.kids, i);
    NodesAt(b.kids, j);
    NodesAt(c.kids, k);
    CompareIsTransitive(at, x, y, c.kids[k], caseSensitive);
  }

  // ----- objects -----

  predicate KeysMatch(x: Item, y: Item, caseSensitive: bool) {
    x.name.Some? && y.name.Some? && EqualText(x.name.value.chars, y.name.value.chars, caseSensitive)
  }

  predicate HasKey(ys: seq<Item>, x: Item, caseSensitive: bool) {
    exists j :: 0 <= j < |ys| && KeysMatch(x, ys[j], caseSensitive)
  }

  /** Every member of `xs` has a key, which some member of `ys` has as well. */
  predicate KeysAmong(xs: seq<Item>, ys: seq<Item>, caseSensitive: bool) {
    forall i :: 0 <= i < |xs| ==> HasKey(ys, xs[i], caseSensitive)
  }

  /** Any two members with one key, one of each list, compare equal. */
  predicate ValuesAgree(xs: seq<Item>, ys: seq<Item>, caseSensitive: bool) {
    forall i, j :: 0 <= i < |xs| && 0 <= j < |ys| && KeysMatch(xs[i], ys[j], caseSensitive) ==>
      Same(xs[i], ys[j], caseSensitive)
  }

  /**
   * Two objects compare equal exactly when all members have keys, both have the same keys, and any
   * two members with the same key, one of each, compare equal. So the order of the members does not
   * matter, and neither does a key that occurs twice with equal values.
   */
  lemma CompareObjects(at: map<Address, Item>, a: Item, b: Item, caseSensitive: bool)
    requires Stored(at, a) && Stored(at, b) && a.kind == b.kind == ObjectKind && a.address != b.address
    ensures Same(a, b, caseSensitive) <==>
            KeysAmong(a.kids, b.kids, caseSensitive) && KeysAmong(b.kids, a.kids, caseSensitive) &&
            ValuesAgree(a.kids, b.kids, caseSensitive)
  {
    hide Stored, Has, KeysMatch;
    if Same(a, b, caseSensitive) {
      KeysAreAmong(a.kids, b.kids, caseSensitive);
      KeysAreAmong(b.kids, a.kids, caseSensitive);
      forall i, j | 0 <= i < |a.kids| && 0 <= j < |b.kids| && KeysMatch(a.kids[i], b.kids[j], caseSensitive)
        ensures Same(a.kids[i], b.kids[j], caseSensitive)
      {
        AnyTwoAreSame(at, a, b, i, j, caseSensitive);
      }
    } else if KeysAmong(a.kids, b.kids, caseSensitive) && KeysAmong(b.kids, a.kids, caseSensitive) &&
      ValuesAgree(a.kids, b.kids, caseSensitive)
    {
      AllFound(a.kids, b.kids, caseSensitive);
      AgreeBothWays(a.kids, b.kids, caseSensitive);
      AllFound(b.kids, a.kids, caseSensitive);
    }
  }

  lemma AgreeBothWays(xs: seq<Item>, ys: seq<Item>, caseSensitive: bool)
    requires ValuesAgree(xs, ys, caseSensitive)
    ensures ValuesAgree(ys, xs, caseSensitive)
  {
    hide Same;
    forall i, j | 0 <= i < |ys| && 0 <= j < |xs| && KeysMatch(ys[i], xs[j], caseSensitive)
      ensures Same(ys[i], xs[j], caseSensitive)
    {
      assert KeysMatch(xs[j], ys[i], caseSensitive);
      CompareIsSymmetric(xs[j], ys[i], caseSensitive);
    }
  }

  lemma KeysAreAmong(xs: seq<Item>, ys: seq<Item>, caseSensitive: bool)
    requires forall i :: 0 <= i < |xs| ==> Has(ys, xs[i], caseSensitive)
    ensures KeysAmong(xs, ys, caseSensitive)
  {
    hide Same;
    forall i | 0 <= i < |xs| ensures HasKey(ys, xs[i], caseSensitive) {
      var name := xs[i].name.value.chars;
      LookupFirst(ys, name, caseSensitive);
      var j := Lookup(ys, name, caseSensitive).value;
      SameKeyIsEqualText(name, ys[j].name.value.chars, caseSensitive);
      assert KeysMatch(xs[i], ys[j], caseSensitive);
    }
  }

  lemma AllFound(xs: seq<Item>, ys: seq<Item>, caseSensitive: bool)
    requires KeysAmong(xs, ys, caseSensitive) && KeysAmong(ys, xs, caseSensitive) && ValuesAgree(xs, ys, caseSensitive)
    ensures forall i :: 0 <= i < |xs| ==> Has(ys, xs[i], caseSensitive)
  {
    hide Has, Same;
    forall j | 0 <= j < |ys| ensures ys[j].name.Some? {
      assert HasKey(xs, ys[j], caseSensitive);
    }
    forall i | 0 <= i < |xs| ensures Has(ys, xs[i], caseSensitive) {
      assert HasKey(ys, xs[i], caseSensitive);
      FoundAmong(xs, ys, i, caseSensitive);
    }
  }

  /** The first member of `ys` with the key of a member of `xs`. */
  lemma FoundAmong(xs: seq<Item>, ys: seq<Item>, i: nat, caseSensitive: bool)
    requires i < |xs| && HasKey(ys, xs[i], caseSensitive) && Named(ys) && ValuesAgree(xs, ys, caseSensitive)
    ensures Has(ys, xs[i], caseSensitive)
  {
    var j :| 0 <= j < |ys| && KeysMatch(xs[i], ys[j], caseSensitive);
    var name := xs[i].name.value.chars;
    SameKeyIsEqualText(name, ys[j].name.value.chars, caseSensitive);
    LookupFirst(ys, name, caseSensitive);
    assert Matches(ys[j], name, caseSensitive);
    var r := Lookup(ys, name, caseSensitive).value;
    SameKeyIsEqualText(name, ys[r].name.value.chars, caseSensitive);
    NodesAt(ys, r);
    assert KeysMatch(xs[i], ys[r], caseSensitive);
  }

  lemma AnyTwoAreSame(at: map<Address, Item>, a: Item, b: Item, i: nat, j: nat, caseSensitive: bool)
    requires Stored(at, a) && Stored(at, b) && i < |a.kids| && j < |b.kids|
    requires forall n :: 0 <= n < |a.kids| ==> Has(b.kids, a.kids[n], caseSensitive)
    requires forall n :: 0 <= n < |b.kids| ==> Has(a.kids, b.kids[n], caseSensitive)
    requires KeysMatch(a.kids[i], b.kids[j], caseSensitive)
    ensures Same(a.kids[i], b.kids[j], caseSensitive)
  {
    var x, y := a.kids[i], b.kids[j];
    var name := x.name.value.chars;
    SameKeyIsEqualText(name, y.name.value.chars, caseSensitive);
    assert Has(b.kids, x, caseSensitive) && Has(a.kids, y, caseSensitive);
    LookupFirst(b.kids, name, caseSensitive);
    LookupFirst(a.kids, y.name.value.chars, caseSensitive);
    // the first members with the key, in either object
    var q := b.kids[Lookup(b.kids, name, caseSensitive).value];
    var p := a.kids[Lookup(a.kids, y.name.value.chars, caseSensitive).value];
    assert Same(x, q, caseSensitive) && Same(y, p, caseSensitive);
    assert Has(b.kids, p, caseSensitive);
    LookupByKey(b.kids, name, p.name.value.chars, caseSensitive);
    assert Same(p, q, caseSensitive);
    CompareIsSymmetric(y, p, caseSensitive);
    CompareIsSymmetric(p, q, caseSensitive);
    CompareIsSymmetric(x, q, caseSensitive);
    CompareIsTransitive(at, x, q, p, caseSensitive);
    CompareIsSymmetric(x, p, caseSensitive);
    CompareIsSymmetric(y, p, caseSensitive);
    CompareIsTransitive(at, x, p, y, caseSensitive);
  }
}
