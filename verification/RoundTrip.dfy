/** Printing followed by parsing. */
module RoundTrip {
  import opened Bytes
  import opened Values
  import opened Parser
  import opened Syntax
  import opened Language
  import opened Recognition
  import opened Prefixes
  import opened Renderer

  // ----- strings -----

  lemma EscapeIsUnit(b: byte)
    ensures Unit(EscapeByte(b))
  {
    var e := EscapeByte(b);
    if |e| == 6 {
      assert e[2..] == [e[2], e[3], e[4], e[5]];
      FourPlain(e[2], e[3], e[4], e[5]);
    }
  }

  lemma {:induction false} EscapeCloses(s: bytes)
    ensures ClosedBody(Escape(s))
  {
    hide ScanLiteral, Unit;
    if |s| == 0 {
      ScanQuote();
    } else {
      EscapeCloses(s[1..]);
      EscapeIsUnit(s[0]);
      UnitScans(EscapeByte(s[0]), Escape(s[1..]) + [QUOTE]);
      assert Escape(s) + [QUOTE] == EscapeByte(s[0]) + (Escape(s[1..]) + [QUOTE]);
    }
  }

  lemma HexCharDigit(n: nat)
    requires n < 16
    ensures HexDigit(HexChar(n)) == Some(n)
  {
  }

  lemma UnescapeByte(b: byte, t: bytes, out: bytes)
    ensures Unescape(EscapeByte(b) + t, out) == Unescape(t, out + [b])
  {
    var e := EscapeByte(b);
    var s := e + t;
    assert s[|e|..] == t;
    if |e| == 6 {
      HexCharDigit(b / 16);
      HexCharDigit(b % 16);
      var digits := s[2..6];
      assert digits == [e[2], e[3], e[4], e[5]];
      assert Hex4(digits) == b;
      assert Utf16Literal(s) == Some((b as nat, 6));
      assert Utf8(b) == [b];
    }
  }

  lemma NothingToUnescape(out: bytes)
    ensures Unescape([], out) == Done(out, [])
  {
  }

  lemma {:induction false} UnescapeEscape(s: bytes, out: bytes)
    ensures Unescape(Escape(s), out) == Done(out + s, [])
  {
    hide Unescape, EscapeByte;
    if |s| == 0 {
      NothingToUnescape(out);
      assert out + s == out;
    } else {
      UnescapeByte(s[0], Escape(s[1..]), out);
      UnescapeEscape(s[1..], out + [s[0]]);
      assert out + [s[0]] + s[1..] == out + s;
    }
  }

  lemma EscapeDenotes(s: bytes)
    requires NulFree(s)
    ensures ClosedBody(Escape(s)) && Unescape(Escape(s), []).Done? && LiteralValue(Escape(s)) == s
  {
    EscapeCloses(s);
    UnescapeEscape(s, []);
    assert [] + s == s;
    CStringOfNulFree(s);
  }

  // ----- the tree that printing writes -----

  /** JSON proper: no raw items and no items without a type. */
  predicate Pure(j: Json)
    decreases j
  {
    match j
    case Invalid => false
    case Raw(_) => false
    case Array(items) => PureItems(items)
    case Object(members) => PureMembers(members)
    case _ => true
  }

  predicate PureItems(items: seq<Json>)
    decreases items
  {
    |items| == 0 || (Pure(items[0]) && PureItems(items[1..]))
  }

  predicate PureMembers(members: seq<Member>)
    decreases members
  {
    |members| == 0 || (PureMember(members[0]) && PureMembers(members[1..]))
  }

  predicate PureMember(m: Member)
    decreases m
  {
    Pure(m.value)
  }

  function Body(text: Option<bytes>): bytes {
    match text
    case None => []
    case Some(s) => Escape(s)
  }

  function Written(k: Codec, j: Json, format: bool, depth: nat): Cst
    decreases j
  {
    match j
    case False => FalseWord
    case True => TrueWord
    case Number(d) => if d.Finite? then Numeral(k.format(d)) else NullWord
    case String(text) => Literal(Body(text))
    case Array(items) => List([], WrittenItems(k, items, format, depth + 1, true))
    case Object(members) =>
      Table(Newline(format) + Indent(format, depth), WrittenMembers(k, members, format, depth + 1))
    case _ => NullWord
  }

  function WrittenItems(k: Codec, items: seq<Json>, format: bool, depth: nat, first: bool): (r: seq<Element>)
    ensures |r| == |items|
    decreases items
  {
    if |items| == 0 then []
    else [Element(if first then [] else Gap(format, SPACE), Written(k, items[0], format, depth), [])] +
         WrittenItems(k, items[1..], format, depth, false)
  }

  /** The line break after the last member belongs to that member. */
  function WrittenMember(k: Codec, m: Member, format: bool, depth: nat, last: bool): Entry
    decreases m
  {
    Entry(Newline(format) + Indent(format, depth), Body(m.key), [],
          Element(Gap(format, TAB), Written(k, m.value, format, depth),
                  if last && depth > 0 then Newline(format) + Indent(format, depth - 1) else []))
  }

  function WrittenMembers(k: Codec, members: seq<Member>, format: bool, depth: nat): (r: seq<Entry>)
    ensures |r| == |members|
    decreases members
  {
    if |members| == 0 then []
    else [WrittenMember(k, members[0], format, depth, |members| == 1)] + WrittenMembers(k, members[1..], format, depth)
  }

  // ----- its text is the rendering -----

  lemma {:induction false} WrittenText(k: Codec, j: Json, format: bool, depth: nat, rest: bytes)
    requires Pure(j)
    ensures Put(Written(k, j, format, depth), rest) == Render(k, j, format, depth) + rest
    decreases j
  {
    match j
    case Array(items) => ArrayText(k, j, format, depth, rest);
    case Object(members) => ObjectText(k, j, format, depth, rest);
    case String(text) => StringText(text, rest);
    case _ =>
  }

  // Concatenation, reassociated to the right and with empty parts dropped.

  lemma Nest3(a: bytes, b: bytes, c: bytes, d: bytes)
    ensures (a + (b + c)) + d == a + (b + (c + d))
  {
    Nest(a, b + c, d);
    Nest(b, c, d);
  }

  lemma Nest4(a: bytes, b: bytes, c: bytes, d: bytes, e: bytes)
    ensures (a + (b + (c + d))) + e == a + (b + (c + (d + e)))
  {
    Nest(a, b + (c + d), e);
    Nest3(b, c, d, e);
  }

  lemma Nest5(a: bytes, b: bytes, c: bytes, d: bytes, e: bytes, f: bytes)
    ensures (a + (b + (c + (d + e)))) + f == a + (b + (c + (d + (e + f))))
  {
    Nest(a, b + (c + (d + e)), f);
    Nest4(b, c, d, e, f);
  }

  lemma StringText(text: Option<bytes>, rest: bytes)
    ensures PutLiteral(Body(text), rest) == RenderString(text) + rest
  {
    Nest3([QUOTE], Body(text), [QUOTE], rest);
    assert text.None? ==> [QUOTE] + ([] + [QUOTE]) == [QUOTE, QUOTE];
  }

  lemma {:induction false} ArrayText(k: Codec, j: Json, format: bool, depth: nat, rest: bytes)
    requires j.Array? && Pure(j)
    ensures Put(Written(k, j, format, depth), rest) == Render(k, j, format, depth) + rest
    decreases j, 0
  {
    Nest3([LBRACKET], RenderItems(k, j.items, format, depth + 1), [RBRACKET], rest);
    if |j.items| > 0 {
      ItemsText(k, j.items, format, depth + 1, true, [RBRACKET] + rest);
    }
  }

  lemma {:induction false} ItemsText(k: Codec, items: seq<Json>, format: bool, depth: nat, first: bool, rest: bytes)
    requires |items| > 0 && PureItems(items)
    ensures var s := RenderItems(k, items, format, depth) + rest;
            PutItems(WrittenItems(k, items, format, depth, first), rest) == if first then s else Gap(format, SPACE) + s
    decreases items
  {
    var w := WrittenItems(k, items, format, depth, first);
    NoPrefix(rest);
    if |items| == 1 {
      WrittenText(k, items[0], format, depth, rest);
      ItemText(w[0], rest);
    } else {
      assert w[1..] == WrittenItems(k, items[1..], format, depth, false);
      ItemsText(k, items[1..], format, depth, false, rest);
      var tail := [COMMA] + PutItems(w[1..], rest);
      WrittenText(k, items[0], format, depth, tail);
      ItemText(w[0], tail);
      Nest4(Render(k, items[0], format, depth), [COMMA], Gap(format, SPACE), RenderItems(k, items[1..], format, depth),
        rest);
    }
  }

  lemma ItemText(e: Element, rest: bytes)
    requires e.after == []
    ensures PutElement(e, rest) == if e.before == [] then Put(e.value, rest) else e.before + Put(e.value, rest)
  {
    NoPrefix(rest);
    NoPrefix(Put(e.value, rest));
  }

  lemma {:induction false} ObjectText(k: Codec, j: Json, format: bool, depth: nat, rest: bytes)
    requires j.Object? && Pure(j)
    ensures Put(Written(k, j, format, depth), rest) == Render(k, j, format, depth) + rest
    decreases j, 0
  {
    var body := RenderMembers(k, j.members, format, depth + 1);
    if |j.members| > 0 {
      FullObjectText(k, j, format, depth, rest);
    } else {
      EmptyObjectText(k, j, format, depth, rest);
    }
    assert Render(k, j, format, depth) == [LBRACE] + (Newline(format) + (body + (Indent(format, depth) + [RBRACE])));
    Nest5([LBRACE], Newline(format), body, Indent(format, depth), [RBRACE], rest);
  }

  lemma {:induction false} FullObjectText(k: Codec, j: Json, format: bool, depth: nat, rest: bytes)
    requires j.Object? && |j.members| > 0 && PureMembers(j.members)
    ensures Put(Written(k, j, format, depth), rest) ==
            [LBRACE] + (Newline(format) +
              (RenderMembers(k, j.members, format, depth + 1) + (Indent(format, depth) + ([RBRACE] + rest))))
    decreases j.members, 1
  {
    hide RenderMembers, Indent, Newline, PutEntries, PureMembers;
    MembersText(k, j.members, format, depth + 1, [RBRACE] + rest);
  }

  lemma EmptyObjectText(k: Codec, j: Json, format: bool, depth: nat, rest: bytes)
    requires j.Object? && |j.members| == 0
    ensures Put(Written(k, j, format, depth), rest) ==
            [LBRACE] + (Newline(format) + (Indent(format, depth) + ([RBRACE] + rest)))
    ensures RenderMembers(k, j.members, format, depth + 1) + (Indent(format, depth) + ([RBRACE] + rest)) ==
            Indent(format, depth) + ([RBRACE] + rest)
  {
    Nest(Newline(format), Indent(format, depth), [RBRACE] + rest);
    NoPrefix(Indent(format, depth) + ([RBRACE] + rest));
  }

  lemma {:induction false} MembersText(k: Codec, members: seq<Member>, format: bool, depth: nat, rest: bytes)
    requires |members| > 0 && PureMembers(members) && depth > 0
    ensures PutEntries(WrittenMembers(k, members, format, depth), rest) ==
            Newline(format) + (RenderMembers(k, members, format, depth) + (Indent(format, depth - 1) + rest))
    decreases members, 0
  {
    var w := WrittenMembers(k, members, format, depth);
    var m := RenderMember(k, members[0], format, depth);
    var end := Indent(format, depth - 1) + rest;
    if |members| == 1 {
      MemberText(k, members[0], format, depth, true, rest);
      NoPrefix(Newline(format));
      Nest(Newline(format), Indent(format, depth - 1), rest);
      Nest(m, Newline(format), end);
    } else {
      assert w[1..] == WrittenMembers(k, members[1..], format, depth);
      MembersText(k, members[1..], format, depth, rest);
      MemberText(k, members[0], format, depth, false, [COMMA] + PutEntries(w[1..], rest));
      Nest4(m, [COMMA], Newline(format), RenderMembers(k, members[1..], format, depth), end);
    }
  }

  lemma {:induction false} MemberText(k: Codec, m: Member, format: bool, depth: nat, last: bool, rest: bytes)
    requires PureMember(m) && depth > 0
    ensures var after := if last then (Newline(format) + Indent(format, depth - 1)) + rest else rest;
            PutEntry(WrittenMember(k, m, format, depth, last), rest) ==
            Newline(format) + (RenderMember(k, m, format, depth) + after)
    decreases m
  {
    var after := if last then (Newline(format) + Indent(format, depth - 1)) + rest else rest;
    NoPrefix(rest);
    WrittenText(k, m.value, format, depth, after);
    var value := Render(k, m.value, format, depth);
    var s := [COLON] + (Gap(format, TAB) + (value + after));
    StringText(m.key, s);
    NoPrefix(s);
    Nest(Newline(format), Indent(format, depth), RenderString(m.key) + s);
    Nest5(Indent(format, depth), RenderString(m.key), [COLON], Gap(format, TAB), value, after);
  }

  // ----- what the written tree denotes -----

  /** How many arrays and objects are inside one another. */
  function Nesting(j: Json): nat
    decreases j
  {
    match j
    case Array(items) => 1 + ItemsNesting(items)
    case Object(members) => 1 + MembersNesting(members)
    case _ => 0
  }

  function Max(a: nat, b: nat): nat {
    if a < b then b else a
  }

  function ItemsNesting(items: seq<Json>): nat
    decreases items
  {
    if |items| == 0 then 0 else Max(Nesting(items[0]), ItemsNesting(items[1..]))
  }

  function MembersNesting(members: seq<Member>): nat
    decreases members
  {
    if |members| == 0 then 0 else Max(MemberNesting(members[0]), MembersNesting(members[1..]))
  }

  function MemberNesting(m: Member): nat
    decreases m
  {
    Nesting(m.value)
  }

  /** The tree that comes back: JSON has no NaN, no infinities and no absent strings. */
  function Normal(j: Json): Json
    decreases j
  {
    match j
    case Number(d) => if d.Finite? then j else Null
    case String(text) => String(Some(Present(text)))
    case Array(items) => Array(NormalItems(items))
    case Object(members) => Object(NormalMembers(members))
    case _ => j
  }

  function Present(text: Option<bytes>): bytes {
    match text
    case None => []
    case Some(s) => s
  }

  function NormalItems(items: seq<Json>): (r: seq<Json>)
    ensures |r| == |items|
    decreases items
  {
    if |items| == 0 then [] else [Normal(items[0])] + NormalItems(items[1..])
  }

  function NormalMember(m: Member): Member
    decreases m
  {
    Member(Some(Present(m.key)), Normal(m.value))
  }

  function NormalMembers(members: seq<Member>): (r: seq<Member>)
    ensures |r| == |members|
    decreases members
  {
    if |members| == 0 then [] else [NormalMember(members[0])] + NormalMembers(members[1..])
  }

  /** Only finite numbers, and no string or key is NULL. */
  predicate Exact(j: Json)
    decreases j
  {
    match j
    case Number(d) => d.Finite?
    case String(text) => text.Some?
    case Array(items) => ExactItems(items)
    case Object(members) => ExactMembers(members)
    case _ => true
  }

  predicate ExactItems(items: seq<Json>)
    decreases items
  {
    |items| == 0 || (Exact(items[0]) && ExactItems(items[1..]))
  }

  predicate ExactMember(m: Member)
    decreases m
  {
    m.key.Some? && Exact(m.value)
  }

  predicate ExactMembers(members: seq<Member>)
    decreases members
  {
    |members| == 0 || (ExactMember(members[0]) && ExactMembers(members[1..]))
  }

  lemma {:induction false} NormalIsExact(j: Json)
    ensures Normal(j) == j <==> Exact(j)
    decreases j
  {
    match j
    case Array(items) => NormalItemsExact(items);
    case Object(members) => NormalMembersExact(members);
    case _ =>
  }

  lemma {:induction false} NormalItemsExact(items: seq<Json>)
    ensures NormalItems(items) == items <==> ExactItems(items)
    decreases items
  {
    if |items| > 0 {
      NormalIsExact(items[0]);
      NormalItemsExact(items[1..]);
      assert NormalItems(items)[0] == Normal(items[0]) && NormalItems(items)[1..] == NormalItems(items[1..]);
      assert items == [items[0]] + items[1..];
    }
  }

  lemma {:induction false} NormalMemberExact(m: Member)
    ensures NormalMember(m) == m <==> ExactMember(m)
    decreases m
  {
    NormalIsExact(m.value);
  }

  lemma {:induction false} NormalMembersExact(members: seq<Member>)
    ensures NormalMembers(members) == members <==> ExactMembers(members)
    decreases members
  {
    if |members| > 0 {
      NormalMemberExact(members[0]);
      NormalMembersExact(members[1..]);
      assert NormalMembers(members)[0] == NormalMember(members[0]) &&
        NormalMembers(members)[1..] == NormalMembers(members[1..]);
      assert members == [members[0]] + members[1..];
    }
  }

  lemma BodyDenotes(text: Option<bytes>)
    requires text.Some? ==> NulFree(text.value)
    ensures ClosedBody(Body(text)) && Unescape(Body(text), []).Done? && LiteralValue(Body(text)) == Present(text)
  {
    EscapeDenotes(Present(text));
  }

  lemma BlankLayout(format: bool, depth: nat)
    ensures Blank(Newline(format) + Indent(format, depth)) && Blank(Gap(format, TAB)) && Blank(Gap(format, SPACE))
  {
  }

  lemma {:induction false} WrittenDenotes(k: Codec, j: Json, format: bool, depth: nat, d: nat)
    requires Pure(j) && NoNul(j) && ExactPrinting(k) && d <= NESTING_LIMIT
    ensures var w := Written(k, j, format, depth);
            Lexical(w) && (Accepted(k, w, d) <==> Nesting(j) + d <= NESTING_LIMIT) && Denote(k, w) == Normal(j)
    decreases j
  {
    match j
    case Number(n) => if n.Finite? { assert k.strtod(k.format(n)) == (|k.format(n)|, n); }
    case String(text) => BodyDenotes(text);
    case Array(_) => ArrayDenotes(k, j, format, depth, d);
    case Object(_) => ObjectDenotes(k, j, format, depth, d);
    case _ =>
  }

  lemma {:induction false} ArrayDenotes(k: Codec, j: Json, format: bool, depth: nat, d: nat)
    requires j.Array? && Pure(j) && NoNul(j) && ExactPrinting(k) && d <= NESTING_LIMIT
    ensures var w := Written(k, j, format, depth);
            Lexical(w) && (Accepted(k, w, d) <==> Nesting(j) + d <= NESTING_LIMIT) && Denote(k, w) == Normal(j)
    decreases j, 0
  {
    var w := WrittenItems(k, j.items, format, depth + 1, true);
    ListFacts(k, [], w, d);
    if d < NESTING_LIMIT {
      ItemsDenote(k, j.items, format, depth + 1, true, d + 1);
    } else {
      ItemsDenote(k, j.items, format, depth + 1, true, 0);
    }
  }

  lemma {:induction false} ItemsDenote(k: Codec, items: seq<Json>, format: bool, depth: nat, first: bool, d: nat)
    requires PureItems(items) && NoNulItems(items) && ExactPrinting(k) && d <= NESTING_LIMIT
    ensures var w := WrittenItems(k, items, format, depth, first);
            LexicalItems(w) && (AcceptedItems(k, w, d) <==> ItemsNesting(items) + d <= NESTING_LIMIT) &&
            DenoteItems(k, w) == NormalItems(items)
    decreases items
  {
    if |items| > 0 {
      BlankLayout(format, depth);
      WrittenDenotes(k, items[0], format, depth, d);
      ItemsDenote(k, items[1..], format, depth, false, d);
      WrittenItemsCons(k, items, format, depth, first);
    }
  }

  lemma WrittenItemsCons(k: Codec, items: seq<Json>, format: bool, depth: nat, first: bool)
    requires |items| > 0
    ensures var w := WrittenItems(k, items, format, depth, first);
            w[0] == Element(if first then [] else Gap(format, SPACE), Written(k, items[0], format, depth), []) &&
            w[1..] == WrittenItems(k, items[1..], format, depth, false)
  {
  }

  lemma {:induction false} ObjectDenotes(k: Codec, j: Json, format: bool, depth: nat, d: nat)
    requires j.Object? && Pure(j) && NoNul(j) && ExactPrinting(k) && d <= NESTING_LIMIT
    ensures var w := Written(k, j, format, depth);
            Lexical(w) && (Accepted(k, w, d) <==> Nesting(j) + d <= NESTING_LIMIT) && Denote(k, w) == Normal(j)
    decreases j, 0
  {
    var w := WrittenMembers(k, j.members, format, depth + 1);
    var pad := Newline(format) + Indent(format, depth);
    assert Blank(pad) by { BlankLayout(format, depth); }
    MembersDenote(k, j.members, format, depth + 1, if d < NESTING_LIMIT then d + 1 else 0);
    TableFacts(k, pad, w, d);
    WrittenObject(k, j, format, depth);
  }

  lemma WrittenObject(k: Codec, j: Json, format: bool, depth: nat)
    requires j.Object?
    ensures Written(k, j, format, depth) ==
            Table(Newline(format) + Indent(format, depth), WrittenMembers(k, j.members, format, depth + 1))
    ensures Normal(j) == Object(NormalMembers(j.members)) && Nesting(j) == 1 + MembersNesting(j.members)
  {
  }

  lemma BlankNothing()
    ensures Blank([])
  {
  }

  lemma {:induction false} MemberDenotes(k: Codec, m: Member, format: bool, depth: nat, last: bool, d: nat)
    requires PureMember(m) && NoNulMember(m) && ExactPrinting(k) && d <= NESTING_LIMIT
    ensures var w := WrittenMember(k, m, format, depth, last);
            LexicalEntry(w) && (AcceptedEntry(k, w, d) <==> MemberNesting(m) + d <= NESTING_LIMIT) &&
            EntryMember(k, w) == NormalMember(m)
    decreases m
  {
    hide Written, Lexical, Accepted, Denote, Blank, Newline, Indent, Gap, Body, Unescape, ClosedBody, Normal, Nesting,
        Pure, NoNul, ExactPrinting;
    BlankNothing();
    BlankLayout(format, depth);
    if depth > 0 { BlankLayout(format, depth - 1); }
    BodyDenotes(m.key);
    WrittenDenotes(k, m.value, format, depth, d);
  }

  lemma {:induction false} MembersDenote(k: Codec, members: seq<Member>, format: bool, depth: nat, d: nat)
    requires PureMembers(members) && NoNulMembers(members) && ExactPrinting(k) && d <= NESTING_LIMIT
    ensures var w := WrittenMembers(k, members, format, depth);
            LexicalEntries(w) && (AcceptedEntries(k, w, d) <==> MembersNesting(members) + d <= NESTING_LIMIT) &&
            DenoteEntries(k, w) == NormalMembers(members)
    decreases members
  {
    if |members| > 0 {
      MemberDenotes(k, members[0], format, depth, |members| == 1, d);
      MembersDenote(k, members[1..], format, depth, d);
      WrittenMembersCons(k, members, format, depth);
    }
  }

  lemma WrittenMembersCons(k: Codec, members: seq<Member>, format: bool, depth: nat)
    requires |members| > 0
    ensures var w := WrittenMembers(k, members, format, depth);
            w[0] == WrittenMember(k, members[0], format, depth, |members| == 1) &&
            w[1..] == WrittenMembers(k, members[1..], format, depth)
  {
  }

  // ----- main results -----

  /** Printed text parses to the normalised tree, unless it nests more than 1000 deep. */
  lemma PrintThenParse(k: Codec, j: Json, format: bool, requireNullTerminated: bool)
    requires Pure(j) && NoNul(j) && ExactPrinting(k)
    ensures Terminated(Render(k, j, format, 0) + [NUL])
    ensures var o := Parse(k, Render(k, j, format, 0) + [NUL], requireNullTerminated);
            if Nesting(j) <= 1000 then o == Done(Normal(j), [NUL]) else o.Stop?
  {
    hide Pure, NoNul, ExactPrinting, Parse, Accepted, Denote, Lexical, Render, Normal, Put, Nesting, Written;
    var w := Written(k, j, format, 0);
    WrittenDenotes(k, j, format, 0, 0);
    WrittenText(k, j, format, 0, [NUL]);
    NoPrefix(Put(w, [NUL]));
    NoPrefix([NUL]);
    ParsesText(k, Element([], w, []));
    ParsesInFront(k, [], w, [NUL]);
    NotTooDeep(k, j, format);
  }

  lemma NotTooDeep(k: Codec, j: Json, format: bool)
    ensures Written(k, j, format, 0).Numeral? ==> Nesting(j) <= 1000
  {
  }

  /** The round trip is the identity exactly on trees of finite numbers and present strings, at most 1000 deep. */
  lemma RoundTripTheorem(k: Codec, j: Json, format: bool, requireNullTerminated: bool)
    requires Pure(j) && NoNul(j) && ExactPrinting(k)
    ensures Terminated(Render(k, j, format, 0) + [NUL])
    ensures Parse(k, Render(k, j, format, 0) + [NUL], requireNullTerminated) == Done(j, [NUL]) <==>
            Nesting(j) <= 1000 && Exact(j)
  {
    PrintThenParse(k, j, format, requireNullTerminated);
    NormalIsExact(j);
  }
}
