/** Printer, parser and allocator together: cJSON_Parse on the output of cJSON_Print. */
module Reparsing {
  import opened Bytes
  import opened Values
  import opened Renderer
  import opened RoundTrip
  import opened Memory
  import opened Items
  import opened Rendered
  import Parser
  import PrintBuffer
  import ParseBuffer

  lemma {:induction false} PureIsPrintable(j: Json)
    requires Pure(j)
    ensures Printable(j)
    decreases j
  {
    match j
    case Array(items) => PureItemsArePrintable(items);
    case Object(members) => PureMembersArePrintable(members);
    case _ =>
  }

  lemma {:induction false} PureItemsArePrintable(items: seq<Json>)
    requires PureItems(items)
    ensures PrintableItems(items)
    decreases items
  {
    if |items| > 0 {
      PureIsPrintable(items[0]);
      PureItemsArePrintable(items[1..]);
    }
  }

  lemma {:induction false} PureMembersArePrintable(members: seq<Member>)
    requires PureMembers(members)
    ensures PrintableMembers(members)
    decreases members
  {
    if |members| > 0 {
      PureMemberIsPrintable(members[0]);
      PureMembersArePrintable(members[1..]);
    }
  }

  lemma {:induction false} PureMemberIsPrintable(m: Member)
    requires PureMember(m)
    ensures PrintableMember(m)
    decreases m
  {
    PureIsPrintable(m.value);
  }

  lemma ExactPrintingPrints(k: Codec)
    requires ExactPrinting(k)
    ensures PrintsNumbers(k)
  {
  }

  /**
   * A tree goes through a printed block and comes back as a tree of new blocks that stands for the
   * same (normalised) value; the printed block is freed, and a failure leaves nothing allocated.
   */
  method PrintAndParse(k: Codec, hooks: Hooks, tree: Json, format: bool, requireNullTerminated: bool)
      returns (item: Option<Item>)
    requires Pure(tree) && NoNul(tree) && ExactPrinting(k)
    modifies hooks
    ensures item.Some? ==>
              Items.Meaning(item.value) == Normal(tree) && Nesting(tree) <= Parser.NESTING_LIMIT &&
              Separate(item.value) && hooks.live == old(hooks.live) + Owned(item.value) &&
              Owned(item.value) !! old(hooks.live)
    ensures item == None ==>
              hooks.live == old(hooks.live) &&
              (Nesting(tree) > Parser.NESTING_LIMIT || |Render(k, tree, format, 0)| + 2 > INT_MAX ||
                hooks.refusals > old(hooks.refusals))
  {
    hide Pure, NoNul, Render, Printable, Normal, Nesting, Items.Meaning, Separate, Owned, Parser.Parse;
    PureIsPrintable(tree);
    ExactPrintingPrints(k);
    RenderNulFree(k, tree, format, 0);
    PrintThenParse(k, tree, format, requireNullTerminated);
    var printed := PrintBuffer.Print(k, hooks, tree, format);
    if printed == None {
      return None;
    }
    var data := printed.value.data;
    ghost var r := Render(k, tree, format, 0);
    assert data[..] == r + [NUL];
    assert data[..data.Length - 1] == r;
    var end, error;
    item, end, error := ParseBuffer.ParseWithOpts(k, hooks, Some(data[..data.Length - 1]),
      requireNullTerminated);
    hooks.Deallocate(printed.value.address);
  }
}
