/** The doubly linked list of children, and the calls that rewire it. */
module ListEdits {
  import opened Memory
  import opened Items

  // ----- the list as a sequence -----

  datatype Edit<T> = Append(item: T) | Insert(which: int, item: T) | Detach(which: int) | Replace(which: int, item: T)

  /** What an edit does to the sequence of children. */
  function Apply<T>(kids: seq<T>, e: Edit<T>): seq<T> {
    match e
    case Append(x) => kids + [x]
    case Insert(which, x) =>
      if which < 0 then kids else if which >= |kids| then kids + [x] else kids[..which] + [x] + kids[which..]
    case Detach(which) => if 0 <= which < |kids| then kids[..which] + kids[which + 1..] else kids
    case Replace(which, x) => if 0 <= which < |kids| then kids[which := x] else kids
  }

  function ApplyAll<T>(kids: seq<T>, edits: seq<Edit<T>>): seq<T>
    decreases |edits|
  {
    if |edits| == 0 then kids else ApplyAll(Apply(kids, edits[0]), edits[1..])
  }

  /** What an edit deletes: the item that another one replaces. */
  ghost function Deleted<T>(kids: seq<T>, e: Edit<T>): set<T> {
    if e.Replace? && 0 <= e.which < |kids| && kids[e.which] != e.item then {kids[e.which]} else {}
  }

  ghost function DeletedByAll<T>(kids: seq<T>, edits: seq<Edit<T>>): set<T>
    decreases |edits|
  {
    if |edits| == 0 then {} else Deleted(kids, edits[0]) + DeletedByAll(Apply(kids, edits[0]), edits[1..])
  }

  /**
   * A new item must not be in the list already, and not be one that has been deleted; replacing an
   * item by itself is allowed.
   */
  ghost predicate Allowed<T>(kids: seq<T>, gone: set<T>, e: Edit<T>) {
    match e
    case Append(x) => x !in kids && x !in gone
    case Insert(_, x) => x !in kids && x !in gone
    case Detach(_) => true
    case Replace(which, x) => x !in gone && (x !in kids || (0 <= which < |kids| && kids[which] == x))
  }

  ghost predicate AllAllowed<T>(kids: seq<T>, gone: set<T>, edits: seq<Edit<T>>)
    decreases |edits|
  {
    |edits| == 0 ||
    (Allowed(kids, gone, edits[0]) && AllAllowed(Apply(kids, edits[0]), gone + Deleted(kids, edits[0]), edits[1..]))
  }

  predicate Distinct<T(==)>(s: seq<T>) {
    forall i, j :: 0 <= i < j < |s| ==> s[i] != s[j]
  }

  /** The list holds no item twice and none that has been deleted. */
  ghost predicate Sane<T>(kids: seq<T>, gone: set<T>) {
    Distinct(kids) && forall x :: x in kids ==> x !in gone
  }

  lemma EditStaysSane<T>(kids: seq<T>, gone: set<T>, e: Edit<T>)
    requires Sane(kids, gone) && Allowed(kids, gone, e)
    ensures Sane(Apply(kids, e), gone + Deleted(kids, e))
  {
  }

  lemma {:induction false} RunStaysSane<T>(kids: seq<T>, gone: set<T>, edits: seq<Edit<T>>)
    requires Sane(kids, gone) && AllAllowed(kids, gone, edits)
    ensures Sane(ApplyAll(kids, edits), gone + DeletedByAll(kids, edits))
    decreases |edits|
  {
    if |edits| == 0 {
      assert gone + {} == gone;
    } else {
      EditStaysSane(kids, gone, edits[0]);
      var deleted := Deleted(kids, edits[0]);
      RunStaysSane(Apply(kids, edits[0]), gone + deleted, edits[1..]);
      assert gone + deleted + DeletedByAll(Apply(kids, edits[0]), edits[1..]) == gone + DeletedByAll(kids, edits);
    }
  }

  lemma Apart<T>(s: seq<T>, i: int, j: nat)
    requires Distinct(s) && i < |s| && j < |s|
    ensures i >= 0 ==> (s[i] == s[j] <==> i == j)
  {
  }

  /** Only an item that is detached or replaced leaves the sequence. */
  lemma Leaves<T>(kids: seq<T>, e: Edit<T>, x: T)
    requires x in kids
    ensures x in Apply(kids, e) || ((e.Detach? || e.Replace?) && 0 <= e.which < |kids| && x == kids[e.which])
  {
    var j :| 0 <= j < |kids| && kids[j] == x;
    var r := Apply(kids, e);
    match e
    case Append(y) => assert r[j] == x;
    case Insert(which, y) => assert r[if 0 <= which <= j then j + 1 else j] == x;
    case Detach(which) => assert j == which || r[if 0 <= which < j then j - 1 else j] == x;
    case Replace(which, y) => assert j == which || r[j] == x;
  }

  /** An item taken out and one put in its place, as sequences. */
  lemma PutBack<T>(kids: seq<T>, which: nat, x: T)
    requires which < |kids|
    ensures var less := Apply(kids, Detach(which));
            Apply(less, Insert(which, x)) == kids[which := x] &&
            forall y :: y in kids[which := x] ==> y == x || y in less
  {
    var less := Apply(kids, Detach(which));
    assert less[..which] == kids[..which] && less[which..] == kids[which + 1..];
  }

  lemma TakeOut<T>(kids: seq<T>, which: nat, x: T)
    ensures var at := if which < |kids| then which else |kids|;
            var more := Apply(kids, Insert(which, x));
            |more| == |kids| + 1 && more[at] == x && Apply(more, Detach(at)) == kids
  {
    var at := if which < |kids| then which else |kids|;
    var more := Apply(kids, Insert(which, x));
    assert more == kids[..at] + [x] + kids[at..];
    assert more[..at] == kids[..at] && more[at + 1..] == kids[at..];
  }

  lemma WithOneMore<T>(s: seq<T>, i: nat, x: T)
    requires i <= |s| && Distinct(s) && x !in s
    ensures Distinct(s[..i] + [x] + s[i..])
    ensures forall j :: 0 <= j <= |s| ==>
            (s[..i] + [x] + s[i..])[j] == if j < i then s[j] else if j == i then x else s[j - 1]
  {
    var r := s[..i] + [x] + s[i..];
    assert forall j :: 0 <= j < |r| ==> r[j] == if j < i then s[j] else if j == i then x else s[j - 1];
  }

  lemma WithoutOne<T>(s: seq<T>, i: nat)
    requires i < |s| && Distinct(s)
    ensures Distinct(s[..i] + s[i + 1..]) && s[i] !in s[..i] + s[i + 1..]
  {
    var r := s[..i] + s[i + 1..];
    assert forall j :: 0 <= j < |r| ==> r[j] == s[if j < i then j else j + 1];
  }

  // ----- the list in memory -----

  class Node {
    var next: Node?
    var prev: Node?
    var child: Node?
    /** The blocks of this node and of everything below it, as cJSON_Delete finds them. */
    const content: Item
    /** The children of this node in order. */
    ghost var kids: seq<Node>

    constructor (content: Item)
      ensures Valid() && kids == [] && Alone() && this.content == content
    {
      next, prev, child, kids, this.content := null, null, null, [], content;
    }

    /** In no list. */
    ghost predicate Alone()
      reads this`next, this`prev
    {
      next == null && prev == null
    }

    /** The links among the children are those of a list that starts at `child` and ends in NULL both ways. */
    ghost predicate Valid()
      reads this`child, this`kids, kids`next, kids`prev
    {
      Distinct(kids) && child == At(0) && forall i :: 0 <= i < |kids| ==> LinkedAt(i)
    }

    /** The child at a position, or NULL. */
    ghost function At(i: int): (n: Node?)
      reads this`kids
      ensures n != null <==> 0 <= i < |kids|
    {
      if 0 <= i < |kids| then kids[i] else null
    }

    /** The links of one child lead to its neighbours. */
    ghost predicate LinkedAt(i: nat)
      requires i < |kids|
      reads this`kids, kids`next, kids`prev
    {
      kids[i].next == At(i + 1) && kids[i].prev == At(i - 1)
    }

    /** get_array_item. */
    method GetArrayItem(index: nat) returns (item: Node?)
      requires Valid()
      ensures item == At(index)
    {
      item := child;
      var left: nat := index;
      ghost var i := 0;
      while item != null && left > 0
        invariant i + left == index && item == At(i)
        decreases left
      {
        assert LinkedAt(i);
        left := left - 1;
        item := item.next;
        i := i + 1;
      }
    }

    /** add_item_to_array for a detached item. */
    method AddItemToArray(item: Node)
      requires Valid() && item.Alone() && item !in kids
      modifies this`child, this`kids, kids`next, item`prev
      ensures Valid() && kids == old(kids) + [item]
    {
      var last := child;
      if last == null {
        child := item;
      } else {
        ghost var i := 0;
        while last.next != null
          invariant last != null && last == At(i) && i < |kids|
          decreases |kids| - i
        {
          assert LinkedAt(i);
          last := last.next;
          i := i + 1;
        }
        assert LinkedAt(i);
        last.next := item;
        item.prev := last;
      }
      kids := kids + [item];
      forall j | 0 <= j < |kids| ensures LinkedAt(j) {
        assert j < |kids| - 1 ==> old(LinkedAt(j));
      }
    }

    /** cJSON_InsertItemInArray. */
    method InsertItemInArray(which: int, newitem: Node)
      requires Valid() && newitem.Alone() && newitem !in kids
      modifies this`child, this`kids, kids`next, kids`prev, newitem`next, newitem`prev
      ensures Valid() && kids == Apply(old(kids), Insert(which, newitem))
      ensures which < 0 ==> kids == old(kids) && newitem.Alone()
      ensures 0 <= which < |old(kids)| ==> kids == old(kids)[..which] + [newitem] + old(kids)[which..]
      ensures which >= |old(kids)| ==> kids == old(kids) + [newitem]
    {
      if which < 0 {
        return;
      }
      var after := GetArrayItem(which);
      if after == null {
        AddItemToArray(newitem);
        return;
      }
      InsertBefore(after, newitem, which);
    }

    /** The end of cJSON_InsertItemInArray, in front of the child at position `i`. */
    method InsertBefore(after: Node, newitem: Node, ghost i: nat)
      requires Valid() && i < |kids| && kids[i] == after && newitem !in kids
      modifies this`child, this`kids, kids`next, kids`prev, newitem`next, newitem`prev
      ensures Valid() && kids == old(kids[..i]) + [newitem] + old(kids[i..])
    {
      hide Distinct;
      WithOneMore(kids, i, newitem);
      LinkBefore(after, newitem, i);
      label Linked:
      ghost var before := kids;
      kids := kids[..i] + [newitem] + kids[i..];
      forall j | 0 <= j < |kids| ensures LinkedAt(j) {
        assert At(j + 1) ==
          (if j + 1 == i then newitem else if j + 1 < i then before[j + 1]
          else if j < |before| then before[j] else null);
        assert At(j - 1) ==
          (if j == i + 1 then newitem else if 0 < j <= i then before[j - 1]
          else if j == 0 then null else before[j - 2]);
        if j < i {
          assert old@Linked(LinkedAround(j, i, newitem)) && kids[j] == before[j];
        } else if j > i {
          assert old@Linked(LinkedAround(j - 1, i, newitem)) && kids[j] == before[j - 1];
        }
      }
    }

    /** The links of one child when `x` stands in front of the child at position `i`. */
    ghost predicate LinkedAround(j: nat, i: nat, x: Node)
      requires j < |kids|
      reads this`kids, kids`next, kids`prev
    {
      kids[j].next == (if j + 1 == i then x else At(j + 1)) && kids[j].prev == (if j == i then x else At(j - 1))
    }

    /** The rewiring of an insertion in front of the child at position `i`. */
    method LinkBefore(after: Node, newitem: Node, ghost i: nat)
      requires Valid() && i < |kids| && kids[i] == after && newitem !in kids
      modifies this`child, kids`next, kids`prev, newitem`next, newitem`prev
      ensures child == (if i == 0 then newitem else At(0))
      ensures newitem.next == after && newitem.prev == At(i - 1)
      ensures forall j :: 0 <= j < |kids| ==> LinkedAround(j, i, newitem)
    {
      assert LinkedAt(i);
      assert i > 0 ==> LinkedAt(i - 1);
      newitem.next := after;
      newitem.prev := after.prev;
      after.prev := newitem;
      if after == child {
        child := newitem;
      } else {
        newitem.prev.next := newitem;
      }
      forall j | 0 <= j < |kids| ensures LinkedAround(j, i, newitem) {
        assert old(LinkedAt(j));
      }
    }

    /** cJSON_DetachItemViaPointer for a child at position `i`. */
    method DetachItemViaPointer(item: Node, ghost i: nat)
      requires Valid() && i < |kids| && kids[i] == item
      modifies this`child, this`kids, kids`next, kids`prev
      ensures Valid() && kids == old(kids)[..i] + old(kids)[i + 1..] && item.Alone() && item !in kids
    {
      hide Distinct;
      WithoutOne(kids, i);
      Unlink(item, i);
      label Unlinked:
      ghost var before := kids;
      kids := kids[..i] + kids[i + 1..];
      forall j | 0 <= j < |kids| ensures LinkedAt(j) {
        assert At(j + 1) == (if j + 1 < i then before[j + 1] else if j + 2 < |before| then before[j + 2] else null);
        assert At(j - 1) == (if j == 0 then null else if j <= i then before[j - 1] else before[j]);
        if j < i {
          assert old@Unlinked(LinkedWithout(j, i)) && kids[j] == before[j];
        } else {
          assert old@Unlinked(LinkedWithout(j + 1, i)) && kids[j] == before[j + 1];
        }
      }
    }

    /** The links of one child when the child at position `i` is skipped. */
    ghost predicate LinkedWithout(j: nat, i: nat)
      requires j < |kids|
      reads this`kids, kids`next, kids`prev
    {
      kids[j].next == (if j + 1 == i then At(i + 1) else At(j + 1)) &&
      kids[j].prev == (if j == i + 1 then At(i - 1) else At(j - 1))
    }

    /** The rewiring of a removal. */
    method Unlink(item: Node, ghost i: nat)
      requires Valid() && i < |kids| && kids[i] == item
      modifies this`child, kids`next, kids`prev
      ensures item.Alone() && child == if i == 0 then At(1) else At(0)
      ensures forall j :: 0 <= j < |kids| && j != i ==> LinkedWithout(j, i)
    {
      assert LinkedAt(i);
      assert i > 0 ==> LinkedAt(i - 1);
      assert i + 1 < |kids| ==> LinkedAt(i + 1);
      if item.prev != null {
        item.prev.next := item.next;
      }
      if item.next != null {
        item.next.prev := item.prev;
      }
      if item == child {
        child := item.next;
      }
      item.prev, item.next := null, null;
      forall j | 0 <= j < |kids| && j != i ensures LinkedWithout(j, i) {
        assert old(LinkedAt(j));
      }
    }

    /** cJSON_DetachItemFromArray. */
    method DetachItemFromArray(which: int) returns (item: Node?)
      requires Valid()
      modifies this`child, this`kids, kids`next, kids`prev
      ensures Valid() && kids == Apply(old(kids), Detach(which))
      ensures kids == if 0 <= which < |old(kids)| then old(kids)[..which] + old(kids)[which + 1..] else old(kids)
      ensures item == old(At(which)) && (item != null ==> item.Alone() && item !in kids)
    {
      if which < 0 {
        return null;
      }
      item := GetArrayItem(which);
      if item != null {
        DetachItemViaPointer(item, which);
      }
    }

    /** cJSON_ReplaceItemViaPointer for a child at position `i`; what is replaced is deleted. */
    method ReplaceItemViaPointer(hooks: Hooks, item: Node, replacement: Node, ghost i: nat)
      requires Valid() && i < |kids| && kids[i] == item
      requires replacement == item || (replacement.Alone() && replacement !in kids)
      requires replacement != item ==> item.Deletable(hooks.live)
      modifies this`child, this`kids, kids`next, kids`prev, replacement`next, replacement`prev, hooks
      ensures Valid() && kids == old(kids)[i := replacement]
      ensures replacement != item ==> item.Alone() && item !in kids
      ensures hooks.live == old(hooks.live) - (if replacement == item then {} else Owned(item.content))
    {
      if replacement == item {
        return;
      }
      hide Distinct, Node.Valid;
      PutInPlace(item, replacement, i);
      DeleteNode(hooks, item.content);
    }

    /** Its part that changes the list. */
    method PutInPlace(item: Node, replacement: Node, ghost i: nat)
      requires Valid() && i < |kids| && kids[i] == item
      requires replacement.Alone() && replacement !in kids
      modifies this`child, this`kids, kids`next, kids`prev, replacement`next, replacement`prev
      ensures Valid() && kids == old(kids)[i := replacement]
      ensures item.Alone() && item !in kids
    {
      Relink(item, replacement, i);
      label Relinked:
      kids := kids[i := replacement];
      forall j | 0 <= j < |kids| ensures LinkedAt(j) {
        assert j != i ==> old@Relinked(LinkedInstead(j, i, replacement));
      }
    }

    /** The node's blocks are live, each once. */
    ghost predicate Deletable(live: set<Address>) {
      Separate(content) && Owned(content) <= live
    }

    /** The links of one child when `x` stands in for the child at position `i`. */
    ghost predicate LinkedInstead(j: nat, i: nat, x: Node)
      requires j < |kids|
      reads this`kids, kids`next, kids`prev
    {
      kids[j].next == (if j + 1 == i then x else At(j + 1)) && kids[j].prev == (if j == i + 1 then x else At(j - 1))
    }

    /** The rewiring of a replacement. */
    method Relink(item: Node, replacement: Node, ghost i: nat)
      requires Valid() && i < |kids| && kids[i] == item && replacement !in kids
      modifies this`child, kids`next, kids`prev, replacement`next, replacement`prev
      ensures item.Alone() && child == (if i == 0 then replacement else At(0))
      ensures replacement.next == At(i + 1) && replacement.prev == At(i - 1)
      ensures forall j :: 0 <= j < |kids| && j != i ==> LinkedInstead(j, i, replacement)
    {
      hide Distinct;
      assert LinkedAt(i);
      replacement.next := item.next;
      replacement.prev := item.prev;
      TurnNeighbours(replacement, i);
      Apart(kids, 0, i);
      if child == item {
        child := replacement;
      }
      label Turned:
      item.next, item.prev := null, null;
      forall j | 0 <= j < |kids| && j != i ensures LinkedInstead(j, i, replacement) {
        Apart(kids, i, j);
        assert old@Turned(LinkedInstead(j, i, replacement));
      }
    }

    /** The neighbours of the child at position `i` turn to the replacement, which points at them. */
    method TurnNeighbours(replacement: Node, ghost i: nat)
      requires Distinct(kids) && i < |kids| && replacement !in kids && forall j :: 0 <= j < |kids| ==> LinkedAt(j)
      requires replacement.next == At(i + 1) && replacement.prev == At(i - 1)
      modifies kids`next, kids`prev
      ensures forall j :: 0 <= j < |kids| ==> LinkedInstead(j, i, replacement)
    {
      hide Distinct;
      if replacement.next != null {
        replacement.next.prev := replacement;
      }
      if replacement.prev != null {
        replacement.prev.next := replacement;
      }
      forall j | 0 <= j < |kids| ensures LinkedInstead(j, i, replacement) {
        Apart(kids, i - 1, j);
        if i + 1 < |kids| {
          Apart(kids, i + 1, j);
        }
        assert old(LinkedAt(j));
      }
    }

    /** cJSON_ReplaceItemInArray. */
    method ReplaceItemInArray(hooks: Hooks, which: int, newitem: Node)
      requires Valid() && ((newitem !in kids && newitem.Alone()) || At(which) == newitem)
      requires At(which) != null && At(which) != newitem ==> At(which).Deletable(hooks.live)
      modifies this`child, this`kids, kids`next, kids`prev, newitem`next, newitem`prev, hooks
      ensures Valid() && kids == Apply(old(kids), Replace(which, newitem))
      ensures kids == if 0 <= which < |old(kids)| then old(kids)[which := newitem] else old(kids)
      ensures var item := old(At(which));
              if item == null || item == newitem then hooks.live == old(hooks.live)
              else hooks.live == old(hooks.live) - Owned(item.content) && item.Alone()
      ensures newitem !in kids ==> newitem.Alone()
    {
      if which < 0 {
        return;
      }
      var item := GetArrayItem(which);
      if item != null {
        ReplaceItemViaPointer(hooks, item, newitem, which);
        assert kids[which] == newitem;
      }
    }

    // ----- edits that undo each other -----

    /** The children and all links of a list are those of another state. */
    twostate predicate SameList()
      reads this`child, this`kids, kids`next, kids`prev
    {
      kids == old(kids) && child == old(child) &&
      forall i :: 0 <= i < |kids| ==> kids[i].next == old(kids[i].next) && kids[i].prev == old(kids[i].prev)
    }

    /** The sequence of children determines every link. */
    twostate lemma LinksFollowKids()
      requires old(Valid()) && Valid() && kids == old(kids)
      ensures SameList()
    {
      forall i | 0 <= i < |kids| ensures kids[i].next == old(kids[i].next) && kids[i].prev == old(kids[i].prev) {
        assert old(LinkedAt(i)) && LinkedAt(i);
      }
    }

    /** Detaching an inserted item restores the list, link by link. */
    method InsertAndDetach(which: nat, newitem: Node)
      requires Valid() && newitem.Alone() && newitem !in kids
      modifies this`child, this`kids, kids`next, kids`prev, newitem`next, newitem`prev
      ensures Valid() && SameList() && newitem.Alone()
    {
      hide Distinct, Valid, SameList;
      TakeOut(kids, which, newitem);
      ghost var at := if which < |kids| then which else |kids|;
      InsertItemInArray(which, newitem);
      DetachItemViaPointer(newitem, at);
      LinksFollowKids();
    }

    /** Inserting a detached item where it was restores the list, link by link. */
    method DetachAndInsert(which: int)
      requires Valid()
      modifies this`child, this`kids, kids`next, kids`prev
      ensures Valid() && SameList()
    {
      hide Distinct, Valid, SameList;
      ghost var before := kids;
      var item := DetachItemFromArray(which);
      if item != null {
        var there: Node := item;
        PutBack(before, which, there);
        InsertItemInArray(which, there);
        assert before[which := there] == before;
      }
      LinksFollowKids();
    }

    /** Detaching an item and inserting another in its place leaves the list that replacing leaves. */
    method DetachAndInsertAnother(which: int, newitem: Node) returns (item: Node?)
      requires Valid() && newitem.Alone() && newitem !in kids
      modifies this`child, this`kids, kids`next, kids`prev, newitem`next, newitem`prev
      ensures Valid() && kids == Apply(old(kids), Replace(which, newitem))
      ensures item == old(At(which)) && (item != null ==> item.Alone() && item !in kids)
    {
      hide Distinct, Valid;
      ghost var before := kids;
      item := DetachItemFromArray(which);
      if item != null {
        PutBack(before, which, newitem);
        InsertItemInArray(which, newitem);
      }
    }

    // ----- building a list -----

    /** The links of a node among the first `count` of `nodes`. */
    ghost static predicate LinkedIn(nodes: seq<Node>, j: nat, count: nat)
      requires j < count <= |nodes|
      reads nodes`next, nodes`prev
    {
      nodes[j].prev == (if j == 0 then null else nodes[j - 1]) &&
      nodes[j].next == (if j + 1 < count then nodes[j + 1] else null)
    }

    /**
     * The wiring of the loops of parse_array, parse_object and cJSON_Duplicate, which keep the head
     * and the last of the list: new nodes become the children of a node that has none.
     */
    method LinkChildren(nodes: seq<Node>)
      requires child == null && kids == [] && Distinct(nodes) && forall j :: 0 <= j < |nodes| ==> nodes[j].Alone()
      modifies this`child, this`kids, nodes`next, nodes`prev
      ensures Valid() && kids == nodes
    {
      var head: Node?, current: Node? := null, null;
      var i := 0;
      while i < |nodes|
        invariant i <= |nodes|
        invariant head == (if i == 0 then null else nodes[0]) && current == (if i == 0 then null else nodes[i - 1])
        invariant forall j :: 0 <= j < i ==> LinkedIn(nodes, j, i)
        invariant forall j :: i <= j < |nodes| ==> nodes[j].Alone()
      {
        label Before:
        assert i > 0 ==> LinkedIn(nodes, i - 1, i);
        if head == null {
          head, current := nodes[i], nodes[i];
        } else {
          current.next := nodes[i];
          nodes[i].prev := current;
          current := nodes[i];
        }
        i := i + 1;
        forall j | 0 <= j < i ensures LinkedIn(nodes, j, i) {
          assert j < i - 1 ==> old@Before(LinkedIn(nodes, j, i - 1));
        }
      }
      child, kids := head, nodes;
      forall j | 0 <= j < |kids| ensures LinkedAt(j) {
        assert LinkedIn(nodes, j, |nodes|);
      }
    }

    // ----- any run of edits -----

    /**
     * The nodes an edit sequence works with, of which `gone` have been deleted: those not in the
     * list are detached, and all their blocks are live.
     */
    ghost predicate Pool(hooks: Hooks, nodes: set<Node>, gone: set<Node>)
      reads this`kids, nodes`next, nodes`prev, hooks
    {
      (forall n :: n in kids ==> n in nodes && n !in gone) &&
      (forall n :: n in nodes && n !in kids && n !in gone ==> n.Alone()) &&
      forall n :: n in nodes && n !in gone ==> n.Deletable(hooks.live)
    }

    /** One edit by the call that makes it. */
    method Dispatch(hooks: Hooks, e: Edit<Node>, ghost nodes: set<Node>, ghost gone: set<Node>)
      requires Valid() && Pool(hooks, nodes, gone) && Allowed(kids, gone, e) && (!e.Detach? ==> e.item in nodes)
      modifies this`child, this`kids, nodes`next, nodes`prev, hooks
      ensures Valid() && kids == Apply(old(kids), e)
      ensures forall n :: n in nodes && n !in kids && n !in gone ==> n.Alone()
      ensures hooks.live == old(hooks.live) - Blocks(Deleted(old(kids), e))
    {
      hide Distinct, Node.Valid, Separate, Owned;
      ghost var before := kids;
      match e {
        case Append(item) =>
          AddItemToArray(item);
        case Insert(which, item) =>
          InsertItemInArray(which, item);
        case Detach(which) =>
          var item := DetachItemFromArray(which);
        case Replace(which, item) =>
          ReplaceItemInArray(hooks, which, item);
      }
      forall n | n in before && n !in kids ensures n.Alone() {
        Leaves(before, e, n);
      }
    }

    /** One edit, and what it leaves in the pool. */
    method Perform(hooks: Hooks, e: Edit<Node>, ghost nodes: set<Node>, ghost gone: set<Node>)
      requires Valid() && Pool(hooks, nodes, gone) && Unshared(nodes) && Allowed(kids, gone, e) &&
               (!e.Detach? ==> e.item in nodes)
      modifies this`child, this`kids, nodes`next, nodes`prev, hooks
      ensures Valid() && kids == Apply(old(kids), e) && Pool(hooks, nodes, gone + Deleted(old(kids), e))
      ensures hooks.live == old(hooks.live) - Blocks(Deleted(old(kids), e))
    {
      ghost var before, live := kids, hooks.live;
      EditStaysSane(kids, gone, e);
      hide Distinct, Node.Valid, Separate, Owned;
      Dispatch(hooks, e, nodes, gone);
      StillDeletable(live, nodes, gone, Deleted(before, e));
    }

    /**
     * Any sequence of edits with detached items keeps the list well formed and acts on it as on a
     * sequence. What it replaces is freed, each block once, and nothing else is.
     */
    method PerformAll(hooks: Hooks, edits: seq<Edit<Node>>, ghost nodes: set<Node>)
      requires Valid() && Pool(hooks, nodes, {}) && Unshared(nodes) && AllAllowed(kids, {}, edits)
      requires forall i :: 0 <= i < |edits| && !edits[i].Detach? ==> edits[i].item in nodes
      modifies this`child, this`kids, nodes`next, nodes`prev, hooks
      ensures Valid() && kids == ApplyAll(old(kids), edits) && Pool(hooks, nodes, DeletedByAll(old(kids), edits))
      ensures hooks.live == old(hooks.live) - Blocks(DeletedByAll(old(kids), edits))
    {
      hide Distinct, Node.Valid, Pool;
      var i := 0;
      ghost var gone: set<Node> := {};
      assert edits[0..] == edits;
      while i < |edits|
        invariant i <= |edits| && Valid() && Pool(hooks, nodes, gone) && AllAllowed(kids, gone, edits[i..])
        invariant ApplyAll(kids, edits[i..]) == ApplyAll(old(kids), edits)
        invariant gone + DeletedByAll(kids, edits[i..]) == DeletedByAll(old(kids), edits)
        invariant hooks.live == old(hooks.live) - Blocks(gone)
      {
        assert edits[i..][1..] == edits[i + 1..];
        ghost var deleted := Deleted(kids, edits[i]);
        Perform(hooks, edits[i], nodes, gone);
        gone := gone + deleted;
        i := i + 1;
      }
    }
  }

  /** No block belongs to two nodes. */
  ghost predicate Unshared(nodes: set<Node>) {
    forall m, n :: m in nodes && n in nodes && m != n ==> Owned(m.content) !! Owned(n.content)
  }

  ghost function Blocks(nodes: set<Node>): set<Address> {
    set n, a | n in nodes && a in Owned(n.content) :: a
  }

  /** Freeing the blocks of some nodes leaves the others as they were. */
  lemma StillDeletable(live: set<Address>, nodes: set<Node>, gone: set<Node>, deleted: set<Node>)
    requires Unshared(nodes) && deleted <= nodes
    requires forall n :: n in nodes && n !in gone ==> n.Deletable(live)
    ensures forall n :: n in nodes && n !in gone + deleted ==> n.Deletable(live - Blocks(deleted))
  {
    forall n | n in nodes && n !in gone + deleted ensures n.Deletable(live - Blocks(deleted)) {
      assert n.Deletable(live);
      assert Owned(n.content) !! Blocks(deleted);
    }
  }
}
