/** Facts about the rendering that the buffered printer relies on. */
module Rendered {
  import opened Bytes
  import opened Values
  import opened Renderer

  /** What the printer needs from the number codec: print_number's 26-byte buffer suffices. */
  ghost predicate PrintsNumbers(k: Codec) {
    forall d: Double :: d.Finite? ==> |k.format(d)| <= 25 && NulFree(k.format(d))
  }

  lemma NulFreeConcat(a: bytes, b: bytes)
    requires NulFree(a) && NulFree(b)
    ensures NulFree(a + b)
  {
  }

  lemma NulFree3(a: bytes, b: bytes, c: bytes)
    requires NulFree(a) && NulFree(b) && NulFree(c)
    ensures NulFree(a + (b + c))
  {
    NulFreeConcat(b, c);
    NulFreeConcat(a, b + c);
  }

  lemma {:induction false} EscapeNulFree(s: bytes)
    ensures NulFree(Escape(s))
  {
    if |s| > 0 {
      EscapeNulFree(s[1..]);
      NulFreeConcat(EscapeByte(s[0]), Escape(s[1..]));
    }
  }

  lemma StringNulFree(text: Option<bytes>)
    ensures NulFree(RenderString(text))
  {
    if text.Some? {
      EscapeNulFree(text.value);
      NulFree3([QUOTE], Escape(text.value), [QUOTE]);
    }
  }

  lemma LayoutNulFree(format: bool, depth: nat)
    ensures NulFree(Newline(format)) && NulFree(Indent(format, depth)) && NulFree(Gap(format, TAB)) &&
            NulFree(Gap(format, SPACE))
  {
  }

  lemma {:induction false} RenderNulFree(k: Codec, j: Json, format: bool, depth: nat)
    requires PrintsNumbers(k) && NoNul(j)
    ensures NulFree(Render(k, j, format, depth))
    decreases j
  {
    match j
    case Number(d) => assert d.Finite? ==> NulFree(k.format(d));
    case Raw(text) => assert text.Some? ==> NulFree(text.value);
    case String(text) => StringNulFree(text);
    case Array(items) =>
      ItemsNulFree(k, items, format, depth + 1);
      NulFree3([LBRACKET], RenderItems(k, items, format, depth + 1), [RBRACKET]);
    case Object(members) =>
      MembersNulFree(k, members, format, depth + 1);
      LayoutNulFree(format, depth);
      NulFreeConcat(Indent(format, depth), [RBRACE]);
      NulFree3(Newline(format), RenderMembers(k, members, format, depth + 1), Indent(format, depth) + [RBRACE]);
      NulFreeConcat([LBRACE],
        Newline(format) + (RenderMembers(k, members, format, depth + 1) + (Indent(format, depth) + [RBRACE])));
    case _ =>
  }

  lemma {:induction false} ItemsNulFree(k: Codec, items: seq<Json>, format: bool, depth: nat)
    requires PrintsNumbers(k) && NoNulItems(items)
    ensures NulFree(RenderItems(k, items, format, depth))
    decreases items
  {
    if |items| > 0 {
      RenderNulFree(k, items[0], format, depth);
      ItemsNulFree(k, items[1..], format, depth);
      LayoutNulFree(format, depth);
      NulFree3([COMMA], Gap(format, SPACE), RenderItems(k, items[1..], format, depth));
      NulFreeConcat(Render(k, items[0], format, depth),
        [COMMA] + (Gap(format, SPACE) + RenderItems(k, items[1..], format, depth)));
    }
  }

  lemma {:induction false} MemberNulFree(k: Codec, m: Member, format: bool, depth: nat)
    requires PrintsNumbers(k) && NoNulMember(m)
    ensures NulFree(RenderMember(k, m, format, depth))
    decreases m
  {
    RenderNulFree(k, m.value, format, depth);
    StringNulFree(m.key);
    LayoutNulFree(format, depth);
    NulFree3([COLON], Gap(format, TAB), Render(k, m.value, format, depth));
    NulFree3(Indent(format, depth), RenderString(m.key),
      [COLON] + (Gap(format, TAB) + Render(k, m.value, format, depth)));
  }

  lemma {:induction false} MembersNulFree(k: Codec, members: seq<Member>, format: bool, depth: nat)
    requires PrintsNumbers(k) && NoNulMembers(members)
    ensures NulFree(RenderMembers(k, members, format, depth))
    decreases members
  {
    if |members| > 0 {
      MemberNulFree(k, members[0], format, depth);
      MembersNulFree(k, members[1..], format, depth);
      LayoutNulFree(format, depth);
      var more := RenderMembers(k, members[1..], format, depth);
      NulFree3(Comma(|members| == 1), Newline(format), more);
      NulFreeConcat(RenderMember(k, members[0], format, depth), Comma(|members| == 1) + (Newline(format) + more));
    }
  }

  /** Printing the first of the items still to print. */
  lemma ItemsUnfold(k: Codec, left: seq<Json>, format: bool, depth: nat)
    requires |left| > 0
    ensures var r := Render(k, left[0], format, depth);
            var more := RenderItems(k, left[1..], format, depth);
            RenderItems(k, left, format, depth) ==
            if |left| == 1 then r + more else r + ([COMMA] + (Gap(format, SPACE) + more))
    ensures PrintableItems(left) == (Printable(left[0]) && PrintableItems(left[1..]))
    ensures NoNulItems(left) ==> NoNul(left[0]) && NoNulItems(left[1..])
  {
    assert |left| == 1 ==> RenderItems(k, left[1..], format, depth) == [];
  }

  lemma MembersUnfold(k: Codec, left: seq<Member>, format: bool, depth: nat)
    requires |left| > 0
    ensures RenderMembers(k, left, format, depth) ==
            RenderMember(k, left[0], format, depth) +
            (Comma(|left| == 1) + (Newline(format) + RenderMembers(k, left[1..], format, depth)))
    ensures PrintableMembers(left) == (PrintableMember(left[0]) && PrintableMembers(left[1..]))
    ensures NoNulMembers(left) ==> NoNulMember(left[0]) && NoNulMembers(left[1..])
  {
  }

  // ----- what cannot be printed -----

  /** `x` is `j` or something in it. */
  predicate Inside(x: Json, j: Json)
    decreases j
  {
    x == j ||
    match j
    case Array(items) => exists i :: 0 <= i < |items| && Inside(x, items[i])
    case Object(members) => exists i :: 0 <= i < |members| && Inside(x, members[i].value)
    case _ => false
  }

  /** A tree can be printed exactly when it holds no item without a type and no raw item without text. */
  lemma {:induction false} PrintableInside(j: Json)
    ensures Printable(j) <==> !Inside(Invalid, j) && !Inside(Raw(None), j)
    decreases j, 1
  {
    match j
    case Array(items) => ItemsPrintable(items);
    case Object(members) => MembersPrintable(members);
    case _ =>
  }

  lemma {:induction false} ItemsPrintable(items: seq<Json>)
    ensures PrintableItems(items) <==>
            forall i :: 0 <= i < |items| ==> !Inside(Invalid, items[i]) && !Inside(Raw(None), items[i])
    decreases items, 0
  {
    if |items| > 0 {
      PrintableInside(items[0]);
      ItemsPrintable(items[1..]);
      assert forall i :: 0 < i < |items| ==> items[i] == items[1..][i - 1];
      assert forall i :: 0 <= i < |items| - 1 ==> items[1..][i] == items[i + 1];
    }
  }

  lemma {:induction false} MembersPrintable(members: seq<Member>)
    ensures PrintableMembers(members) <==>
            forall i :: 0 <= i < |members| ==>
              !Inside(Invalid, members[i].value) && !Inside(Raw(None), members[i].value)
    decreases members, 0
  {
    if |members| > 0 {
      MemberPrintable(members[0]);
      MembersPrintable(members[1..]);
      assert forall i :: 0 < i < |members| ==> members[i] == members[1..][i - 1];
      assert forall i :: 0 <= i < |members| - 1 ==> members[1..][i] == members[i + 1];
    }
  }

  lemma {:induction false} MemberPrintable(m: Member)
    ensures PrintableMember(m) <==> !Inside(Invalid, m.value) && !Inside(Raw(None), m.value)
    decreases m
  {
    PrintableInside(m.value);
  }
}
