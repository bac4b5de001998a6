/**
 * cJSON nodes with the identities of the blocks they are made of: who owns what, deletion and
 * duplication.
 */
module Items {
  import opened Bytes
  import opened Values
  import opened Memory
  import opened Numbers

  datatype Kind =
    InvalidKind | FalseKind | TrueKind | NullKind | NumberKind | StringKind | ArrayKind | ObjectKind | RawKind

  /** A string block: its address and the C string in it. */
  datatype Text = Text(address: Address, chars: bytes)

  /**
   * The cJSON struct. `kind` is the low byte of `type`, the two flags are IsReference and
   * StringIsConst, `name` is the key, and `kids` is the list that starts at `child`.
   */
  datatype Item = Item(
    address: Address,
    kind: Kind,
    reference: bool,
    constName: bool,
    valuestring: Option<Text>,
    valueint: int,
    valuedouble: Double,
    name: Option<Text>,
    kids: seq<Item>)

  /** A node as cJSON_New_Item leaves it. */
  function Blank(address: Address): Item {
    Item(address, InvalidKind, false, false, None, 0, ZERO, None, [])
  }

  /**
   * A tree as the parser makes it, field by field: numbers have their int cut off, true has 1, and
   * every other field is zero; only strings have a string, only arrays and objects have children,
   * and only the members of objects have keys, none of them constant.
   */
  predicate Parsed(item: Item)
    decreases item
  {
    !item.reference && !item.constName && item.kind != InvalidKind && item.kind != RawKind &&
    (if item.kind == NumberKind then CutOff(item.valuedouble, item.valueint)
     else item.valuedouble == ZERO && item.valueint == if item.kind == TrueKind then 1 else 0) &&
    (item.valuestring.Some? <==> item.kind == StringKind) &&
    (item.kind != ArrayKind && item.kind != ObjectKind ==> item.kids == []) &&
    forall i :: 0 <= i < |item.kids| ==>
      Parsed(item.kids[i]) && (item.kids[i].name.Some? <==> item.kind == ObjectKind)
  }

  // ----- the value a node stands for -----

  function Chars(t: Option<Text>): Option<bytes> {
    match t
    case None => None
    case Some(x) => Some(x.chars)
  }

  function Meaning(item: Item): Json
    decreases item, 1
  {
    match item.kind
    case InvalidKind => Invalid
    case FalseKind => False
    case TrueKind => True
    case NullKind => Null
    case NumberKind => Number(item.valuedouble)
    case StringKind => String(Chars(item.valuestring))
    case RawKind => Raw(Chars(item.valuestring))
    case ArrayKind => Array(Meanings(item.kids))
    case ObjectKind => Object(MemberMeanings(item.kids))
  }

  function Meanings(items: seq<Item>): (r: seq<Json>)
    ensures |r| == |items|
    decreases items, 0
  {
    if |items| == 0 then [] else Meanings(items[..|items| - 1]) + [Meaning(items[|items| - 1])]
  }

  function MemberMeanings(items: seq<Item>): (r: seq<Member>)
    ensures |r| == |items|
    decreases items, 0
  {
    if |items| == 0 then []
    else
      var last := items[|items| - 1];
      MemberMeanings(items[..|items| - 1]) + [Member(Chars(last.name), Meaning(last))]
  }

  // ----- ownership -----

  function Block(t: Option<Text>): set<Address> {
    match t
    case None => {}
    case Some(x) => {x.address}
  }

  /** The key's block, unless the key is a constant. */
  function NameBlock(item: Item): set<Address> {
    if item.constName then {} else Block(item.name)
  }

  /** What hangs off a node by `valuestring` and `child`; a reference owns none of it. */
  function ContentBlocks(item: Item): set<Address>
    decreases item, 0
  {
    if item.reference then {} else Block(item.valuestring) + OwnedBy(item.kids)
  }

  function Owned(item: Item): set<Address>
    decreases item, 1
  {
    {item.address} + NameBlock(item) + ContentBlocks(item)
  }

  function OwnedBy(items: seq<Item>): set<Address>
    decreases items, 2
  {
    if |items| == 0 then {} else OwnedBy(items[..|items| - 1]) + Owned(items[|items| - 1])
  }

  /** No block is owned twice. */
  predicate Separate(item: Item)
    decreases item, 1
  {
    item.address !in NameBlock(item) &&
    item.address !in ContentBlocks(item) &&
    NameBlock(item) !! ContentBlocks(item) &&
    (!item.reference ==> Block(item.valuestring) !! OwnedBy(item.kids) && SeparateAll(item.kids))
  }

  predicate SeparateAll(items: seq<Item>)
    decreases items, 2
  {
    |items| == 0 ||
    (SeparateAll(items[..|items| - 1]) && Separate(items[|items| - 1]) &&
      OwnedBy(items[..|items| - 1]) !! Owned(items[|items| - 1]))
  }

  /** The last of a list, as the functions above see it. */
  lemma Appended(items: seq<Item>, item: Item)
    ensures OwnedBy(items + [item]) == OwnedBy(items) + Owned(item)
    ensures SeparateAll(items + [item]) <==> SeparateAll(items) && Separate(item) && OwnedBy(items) !! Owned(item)
    ensures Meanings(items + [item]) == Meanings(items) + [Meaning(item)]
    ensures MemberMeanings(items + [item]) == MemberMeanings(items) + [Member(Chars(item.name), Meaning(item))]
  {
    var all := items + [item];
    assert all[..|all| - 1] == items && all[|all| - 1] == item;
  }

  /** The first of a list, for the loops that walk along `next`. */
  lemma {:induction false} FirstOf(items: seq<Item>)
    requires |items| > 0
    ensures OwnedBy(items) == Owned(items[0]) + OwnedBy(items[1..])
    ensures SeparateAll(items) <==>
            Separate(items[0]) && SeparateAll(items[1..]) && Owned(items[0]) !! OwnedBy(items[1..])
  {
    if |items| > 1 {
      var front := items[..|items| - 1];
      FirstOf(front);
      assert items[1..][..|items| - 2] == front[1..];
    } else {
      assert items == [] + [items[0]];
      Appended([], items[0]);
    }
  }

  /**
   * What a node owns, field by field: itself, a key that is no constant, and, unless it is a
   * reference, its string and what its children own.
   */
  lemma OwnedFields(item: Item, a: Address)
    ensures a in Owned(item) <==>
            a == item.address ||
            (!item.constName && item.name.Some? && a == item.name.value.address) ||
            (!item.reference && item.valuestring.Some? && a == item.valuestring.value.address) ||
            (!item.reference && exists i :: 0 <= i < |item.kids| && a in Owned(item.kids[i]))
  {
    OwnedByChildren(item.kids, a);
  }

  lemma {:induction false} OwnedByChildren(items: seq<Item>, a: Address)
    ensures a in OwnedBy(items) <==> exists i :: 0 <= i < |items| && a in Owned(items[i])
  {
    if |items| > 0 {
      var front := items[..|items| - 1];
      OwnedByChildren(front, a);
      if a in OwnedBy(front) {
        var i :| 0 <= i < |front| && a in Owned(front[i]);
        assert a in Owned(items[i]);
      }
    }
  }

  // ----- cJSON_Delete -----

  /** cJSON_Delete on a node followed by its siblings: exactly what the list owns is freed, each block once. */
  method Delete(hooks: Hooks, items: seq<Item>)
    requires SeparateAll(items) && OwnedBy(items) <= hooks.live
    modifies hooks
    ensures hooks.refusals == old(hooks.refusals)
    ensures hooks.live == old(hooks.live) - OwnedBy(items)
    ensures forall i :: 0 <= i < |items| ==> items[i].address !in hooks.live
    decreases items
  {
    forall i | 0 <= i < |items| ensures items[i].address in OwnedBy(items) {
      OwnedFields(items[i], items[i].address);
      OwnedByChildren(items, items[i].address);
    }
    var i := 0;
    ghost var rest := items;
    while i < |items|
      invariant i <= |items| && rest == items[i..] && hooks.refusals == old(hooks.refusals)
      invariant SeparateAll(rest) && OwnedBy(rest) <= hooks.live
      invariant hooks.live - OwnedBy(rest) == old(hooks.live) - OwnedBy(items)
    {
      FirstOf(rest);
      DeleteNode(hooks, items[i]);
      i := i + 1;
      rest := rest[1..];
    }
  }

  /**
   * One round of that loop. Of a reference only the node and its key go, of any other node the
   * string and the children as well; a constant key stays.
   */
  method DeleteNode(hooks: Hooks, item: Item)
    requires Separate(item) && Owned(item) <= hooks.live
    modifies hooks
    ensures hooks.refusals == old(hooks.refusals)
    ensures hooks.live == old(hooks.live) - Owned(item)
    ensures item.reference ==>
            hooks.live == old(hooks.live) - {item.address} -
            (if item.name.Some? && !item.constName then {item.name.value.address} else {})
    ensures !item.reference ==>
            (item.valuestring.Some? ==> item.valuestring.value.address !in hooks.live) &&
            forall i :: 0 <= i < |item.kids| ==> item.kids[i].address !in hooks.live
    ensures item.address !in hooks.live
    ensures item.constName ==> hooks.live == old(hooks.live) - Owned(item.(name := None))
    ensures item.name.Some? && !item.constName ==> item.name.value.address !in hooks.live
    decreases item
  {
    if !item.reference && |item.kids| > 0 {
      Delete(hooks, item.kids);
    }
    if !item.reference && item.valuestring.Some? {
      hooks.Deallocate(item.valuestring.value.address);
    }
    if !item.constName && item.name.Some? {
      hooks.Deallocate(item.name.value.address);
    }
    hooks.Deallocate(item.address);
  }

  // ----- cJSON_Duplicate -----

  /** cJSON_strdup: a new block with the same C string. */
  method Strdup(hooks: Hooks, chars: bytes) returns (r: Option<Text>)
    modifies hooks
    ensures hooks.refusals >= old(hooks.refusals)
    ensures r == None ==> hooks.live == old(hooks.live) && hooks.refusals > old(hooks.refusals)
    ensures r.Some? ==>
            r.value.chars == chars && r.value.address !in old(hooks.live) &&
            hooks.live == old(hooks.live) + {r.value.address}
  {
    var a := hooks.Allocate();
    r := if a == None then None else Some(Text(a.value, chars));
  }

  /** `copy` is a duplicate of `item`; with `deep` its children are duplicates too. */
  predicate CopyOf(item: Item, copy: Item, deep: bool)
    decreases item, 1
  {
    copy.kind == item.kind && !copy.reference && copy.constName == item.constName &&
    copy.valueint == item.valueint && copy.valuedouble == item.valuedouble &&
    Chars(copy.valuestring) == Chars(item.valuestring) && Chars(copy.name) == Chars(item.name) &&
    (item.constName ==> copy.name == item.name) &&
    (if deep then CopiesOf(item.kids, copy.kids) else copy.kids == [])
  }

  predicate CopiesOf(items: seq<Item>, copies: seq<Item>)
    decreases items, 2
  {
    |copies| == |items| &&
    (|items| == 0 ||
      (CopiesOf(items[..|items| - 1], copies[..|items| - 1]) && CopyOf(items[|items| - 1], copies[|items| - 1], true)))
  }

  lemma CopiesAppended(items: seq<Item>, copies: seq<Item>, item: Item, copy: Item)
    requires CopiesOf(items, copies) && CopyOf(item, copy, true)
    ensures CopiesOf(items + [item], copies + [copy])
  {
    var all, both := items + [item], copies + [copy];
    assert all[..|all| - 1] == items && both[..|all| - 1] == copies;
  }

  lemma NoCopies()
    ensures CopiesOf([], []) && SeparateAll([]) && OwnedBy([]) == {}
  {
  }

  /** A duplicate means the same. */
  lemma {:induction false} CopyMeaning(item: Item, copy: Item)
    requires CopyOf(item, copy, true)
    ensures Meaning(copy) == Meaning(item)
    decreases item, 1
  {
    CopyMeanings(item.kids, copy.kids);
  }

  lemma {:induction false} CopyMeanings(items: seq<Item>, copies: seq<Item>)
    requires CopiesOf(items, copies)
    ensures Meanings(copies) == Meanings(items) && MemberMeanings(copies) == MemberMeanings(items)
    decreases items, 2
  {
    if |items| > 0 {
      CopyMeanings(items[..|items| - 1], copies[..|items| - 1]);
      CopyMeaning(items[|items| - 1], copies[|items| - 1]);
    }
  }

  /**
   * cJSON_Duplicate: a copy made of new blocks only, or nothing at all when an allocation failed.
   */
  method Duplicate(hooks: Hooks, item: Item, recurse: bool) returns (r: Option<Item>)
    modifies hooks
    ensures hooks.refusals >= old(hooks.refusals)
    ensures r == None ==> hooks.live == old(hooks.live) && hooks.refusals > old(hooks.refusals)
    ensures r.Some? ==> CopyOf(item, r.value, recurse) && Separate(r.value)
    ensures r.Some? ==> hooks.live == old(hooks.live) + Owned(r.value) && Owned(r.value) !! old(hooks.live)
    decreases item, 1
  {
    var node := DuplicateNode(hooks, item);
    if node == None {
      return None;
    }
    if !recurse {
      return node;
    }
    var kids, ok := DuplicateKids(hooks, item.kids);
    var copy := node.value.(kids := kids);
    if !ok {
      DeleteNode(hooks, copy);
      return None;
    }
    return Some(copy);
  }

  /** The node without its children. */
  method DuplicateNode(hooks: Hooks, item: Item) returns (r: Option<Item>)
    modifies hooks
    ensures hooks.refusals >= old(hooks.refusals)
    ensures r == None ==> hooks.live == old(hooks.live) && hooks.refusals > old(hooks.refusals)
    ensures r.Some? ==> CopyOf(item, r.value, false) && Separate(r.value)
    ensures r.Some? ==> hooks.live == old(hooks.live) + Owned(r.value)
    ensures r.Some? ==> Owned(r.value) !! old(hooks.live)
  {
    var address := hooks.Allocate();
    if address == None {
      return None;
    }
    var copy := Blank(address.value).(
      kind := item.kind, constName := item.constName, valueint := item.valueint, valuedouble := item.valuedouble);
    if item.valuestring.Some? {
      var text := Strdup(hooks, item.valuestring.value.chars);
      if text == None {
        DeleteNode(hooks, copy);
        return None;
      }
      copy := copy.(valuestring := text);
    }
    if item.name.Some? {
      var name := item.name;
      if !item.constName {
        name := Strdup(hooks, item.name.value.chars);
        if name == None {
          DeleteNode(hooks, copy);
          return None;
        }
      }
      copy := copy.(name := name);
    }
    return Some(copy);
  }

  /** The loop along `next`; on failure it leaves what it made so far. */
  method DuplicateKids(hooks: Hooks, items: seq<Item>) returns (copies: seq<Item>, ok: bool)
    modifies hooks
    ensures hooks.refusals >= old(hooks.refusals)
    ensures if ok then CopiesOf(items, copies) else hooks.refusals > old(hooks.refusals)
    ensures SeparateAll(copies) && hooks.live == old(hooks.live) + OwnedBy(copies) && OwnedBy(copies) !! old(hooks.live)
    decreases items, 2
  {
    hide Owned, OwnedBy, Separate, SeparateAll, CopyOf, CopiesOf;
    copies, ok := [], true;
    NoCopies();
    var i := 0;
    while i < |items| && ok
      invariant i <= |items| && hooks.refusals >= old(hooks.refusals)
      invariant if ok then CopiesOf(items[..i], copies) else hooks.refusals > old(hooks.refusals)
      invariant SeparateAll(copies) && hooks.live == old(hooks.live) + OwnedBy(copies) &&
                OwnedBy(copies) !! old(hooks.live)
      decreases |items| - i, ok
    {
      var copy := Duplicate(hooks, items[i], true);
      if copy == None {
        ok := false;
      } else {
        Appended(copies, copy.value);
        CopiesAppended(items[..i], copies, items[i], copy.value);
        assert items[..i + 1] == items[..i] + [items[i]];
        copies := copies + [copy.value];
        i := i + 1;
      }
    }
    assert items[..|items|] == items;
  }

  // ----- keys -----

  /** `named` is `item` with another key; what the node owns besides its key is as before. */
  predicate Renamed(item: Item, named: Item) {
    named == item.(name := named.name, constName := named.constName)
  }

  /** The old key's block is freed unless the key is a constant. */
  method DropKey(hooks: Hooks, item: Item)
    requires NameBlock(item) <= hooks.live
    modifies hooks
    ensures hooks.refusals == old(hooks.refusals)
    ensures hooks.live == old(hooks.live) - NameBlock(item)
  {
    if !item.constName && item.name.Some? {
      hooks.Deallocate(item.name.value.address);
    }
  }

  /**
   * The part of add_item_to_object in front of the list: the item gets a copy of `key`, or shares
   * it as a constant. The copy is made before the old key is freed, so a refused allocation leaves
   * everything as it was.
   */
  method SetKey(hooks: Hooks, item: Item, key: Text, constantKey: bool) returns (ok: bool, named: Item)
    requires Separate(item) && Owned(item) <= hooks.live
    modifies hooks
    ensures Renamed(item, named) && Separate(named)
    ensures hooks.live == (old(hooks.live) - Owned(item)) + Owned(named)
    ensures if ok then Chars(named.name) == Some(key.chars) && named.constName == constantKey
            else named == item && !constantKey && hooks.refusals > old(hooks.refusals)
  {
    var name := Some(key);
    if !constantKey {
      name := Strdup(hooks, key.chars);
      if name == None {
        return false, item;
      }
    }
    DropKey(hooks, item);
    ok, named := true, item.(name := name, constName := constantKey);
  }

  /**
   * The renaming in replace_item_in_object: here the old key is freed first, so a refused
   * allocation leaves the replacement without a key.
   */
  method ReplaceKey(hooks: Hooks, item: Item, chars: bytes) returns (named: Item)
    requires Separate(item) && Owned(item) <= hooks.live
    modifies hooks
    ensures Renamed(item, named) && Separate(named) && !named.constName
    ensures hooks.live == (old(hooks.live) - Owned(item)) + Owned(named)
    ensures if named.name.Some? then named.name.value.chars == chars else hooks.refusals > old(hooks.refusals)
  {
    DropKey(hooks, item);
    var name := Strdup(hooks, chars);
    named := item.(name := name, constName := false);
  }
}
