/**
 * The string literals of a text in their order: found by reading the bytes from the left, in the
 * syntax tree, and in the value the tree denotes.
 */
module Literals {
  import opened Bytes
  import opened Values
  import opened Parser
  import opened Syntax
  import opened Language
  import opened Recognition

  // ----- in the bytes -----

  /** A byte that can stand outside literals. */
  predicate Outer(b: byte) {
    b != QUOTE && b != BACKSLASH && b != SLASH
  }

  /** The bodies of the literals of `s`, which starts outside of one; None if `s` has no such reading. */
  function Outside(s: bytes): Option<seq<bytes>>
    decreases |s|
  {
    if |s| == 0 then Some([])
    else if s[0] == QUOTE then Inside(s[1..])
    else if Outer(s[0]) then Outside(s[1..])
    else None
  }

  /** The same behind an opening quote. */
  function Inside(s: bytes): Option<seq<bytes>>
    decreases |s|
  {
    match ScanLiteral(s)
    case None => None
    case Some(n) => Join([s[..n]], Outside(s[n + 1..]))
  }

  function Join(a: seq<bytes>, r: Option<seq<bytes>>): Option<seq<bytes>> {
    match r
    case None => None
    case Some(b) => Some(a + b)
  }

  lemma JoinJoin(a: seq<bytes>, b: seq<bytes>, r: Option<seq<bytes>>)
    ensures Join(a + b, r) == Join(a, Join(b, r))
  {
    if r.Some? {
      assert a + b + r.value == a + (b + r.value);
    }
  }

  lemma {:induction false} OutsideOuter(a: bytes, rest: bytes)
    requires forall i :: 0 <= i < |a| ==> Outer(a[i])
    ensures Outside(a + rest) == Outside(rest)
  {
    if |a| == 0 {
      assert a + rest == rest;
    } else {
      OutsideOuter(a[1..], rest);
      assert (a + rest)[1..] == a[1..] + rest;
    }
  }

  lemma OutsideLiteral(body: bytes, rest: bytes)
    requires ScanLiteral(body + [QUOTE]) == Some(|body|)
    ensures Outside(PutLiteral(body, rest)) == Join([body], Outside(rest))
  {
    hide ScanLiteral;
    var s := body + ([QUOTE] + rest);
    Nest(body, [QUOTE], rest);
    ScanStable(body + [QUOTE], rest);
    assert s[..|body|] == body && s[|body| + 1..] == rest;
    assert PutLiteral(body, rest)[1..] == s;
  }

  // ----- in the tree -----

  function Bodies(v: Cst): seq<bytes>
    decreases v
  {
    match v
    case Literal(body) => [body]
    case List(_, items) => ItemBodies(items)
    case Table(_, entries) => EntriesBodies(entries)
    case _ => []
  }

  function ItemBodies(items: seq<Element>): seq<bytes>
    decreases items
  {
    if |items| == 0 then [] else Bodies(items[0].value) + ItemBodies(items[1..])
  }

  function EntryBodies(e: Entry): seq<bytes>
    decreases e
  {
    [e.name] + Bodies(e.element.value)
  }

  function EntriesBodies(entries: seq<Entry>): seq<bytes>
    decreases entries
  {
    if |entries| == 0 then [] else EntryBodies(entries[0]) + EntriesBodies(entries[1..])
  }

  lemma {:induction false} OutsidePut(v: Cst, rest: bytes)
    requires Lexical(v)
    ensures Outside(Put(v, rest)) == Join(Bodies(v), Outside(rest))
    decreases v
  {
    hide Outside, ScanLiteral, PutItems, PutEntries, ItemBodies, EntriesBodies, LexicalItems, LexicalEntries;
    JoinNothing(Outside(rest));
    match v
    case NullWord => OutsideOuter(NULL_TEXT, rest);
    case FalseWord => OutsideOuter(FALSE_TEXT, rest);
    case TrueWord => OutsideOuter(TRUE_TEXT, rest);
    case Numeral(lexeme) => OutsideOuter(lexeme, rest);
    case Literal(body) => OutsideLiteral(body, rest);
    case List(pad, items) =>
      var end := [RBRACKET] + rest;
      OutsideOuter([RBRACKET], rest);
      if |items| == 0 {
        OutsideOuter(pad, end);
        OutsideOuter([LBRACKET], pad + end);
        assert ItemBodies(items) == [] by { NoItemBodies(); }
      } else {
        OutsideItems(items, end);
        OutsideOuter([LBRACKET], PutItems(items, end));
      }
    case Table(pad, entries) =>
      var end := [RBRACE] + rest;
      OutsideOuter([RBRACE], rest);
      if |entries| == 0 {
        OutsideOuter(pad, end);
        OutsideOuter([LBRACE], pad + end);
        assert EntriesBodies(entries) == [] by { NoItemBodies(); }
      } else {
        OutsideEntries(entries, end);
        OutsideOuter([LBRACE], PutEntries(entries, end));
      }
  }

  lemma NoItemBodies()
    ensures ItemBodies([]) == [] && EntriesBodies([]) == []
  {
  }

  lemma JoinNothing(r: Option<seq<bytes>>)
    ensures Join([], r) == r
  {
    if r.Some? {
      assert [] + r.value == r.value;
    }
  }

  lemma {:induction false} OutsideElement(e: Element, rest: bytes)
    requires LexicalElement(e)
    ensures Outside(PutElement(e, rest)) == Join(Bodies(e.value), Outside(rest))
    decreases e
  {
    hide Outside, Bodies;
    OutsideOuter(e.before, Put(e.value, e.after + rest));
    OutsidePut(e.value, e.after + rest);
    OutsideOuter(e.after, rest);
  }

  lemma {:induction false} OutsideItems(items: seq<Element>, rest: bytes)
    requires |items| > 0 && LexicalItems(items)
    ensures Outside(PutItems(items, rest)) == Join(ItemBodies(items), Outside(rest))
    decreases items
  {
    hide Outside, Bodies, Join;
    if |items| == 1 {
      OutsideElement(items[0], rest);
      assert items[1..] == [];
      NoItemBodies();
      assert Bodies(items[0].value) + [] == Bodies(items[0].value);
    } else {
      OutsideItems(items[1..], rest);
      OutsideOuter([COMMA], PutItems(items[1..], rest));
      OutsideElement(items[0], [COMMA] + PutItems(items[1..], rest));
      JoinJoin(Bodies(items[0].value), ItemBodies(items[1..]), Outside(rest));
    }
  }

  lemma {:induction false} OutsideEntry(e: Entry, rest: bytes)
    requires LexicalEntry(e)
    ensures Outside(PutEntry(e, rest)) == Join(EntryBodies(e), Outside(rest))
    decreases e
  {
    hide Outside, Bodies, Join, ScanLiteral;
    var value := PutElement(e.element, rest);
    OutsideElement(e.element, rest);
    OutsideOuter([COLON], value);
    OutsideOuter(e.between, [COLON] + value);
    OutsideLiteral(e.name, e.between + ([COLON] + value));
    OutsideOuter(e.before, PutLiteral(e.name, e.between + ([COLON] + value)));
    JoinJoin([e.name], Bodies(e.element.value), Outside(rest));
  }

  lemma {:induction false} OutsideEntries(entries: seq<Entry>, rest: bytes)
    requires |entries| > 0 && LexicalEntries(entries)
    ensures Outside(PutEntries(entries, rest)) == Join(EntriesBodies(entries), Outside(rest))
    decreases entries
  {
    hide Outside, EntryBodies, Join;
    if |entries| == 1 {
      OutsideEntry(entries[0], rest);
      assert entries[1..] == [];
      NoItemBodies();
      assert EntryBodies(entries[0]) + [] == EntryBodies(entries[0]);
    } else {
      OutsideEntries(entries[1..], rest);
      OutsideOuter([COMMA], PutEntries(entries[1..], rest));
      OutsideEntry(entries[0], [COMMA] + PutEntries(entries[1..], rest));
      JoinJoin(EntryBodies(entries[0]), EntriesBodies(entries[1..]), Outside(rest));
    }
  }

  // ----- in the value -----

  function LiteralValues(bodies: seq<bytes>): (r: seq<bytes>)
    ensures |r| == |bodies|
  {
    if |bodies| == 0 then [] else [LiteralValue(bodies[0])] + LiteralValues(bodies[1..])
  }

  lemma {:induction false} ValuesAppend(a: seq<bytes>, b: seq<bytes>)
    ensures LiteralValues(a + b) == LiteralValues(a) + LiteralValues(b)
  {
    hide LiteralValue;
    if |a| == 0 {
      assert a + b == b;
    } else {
      ValuesAppend(a[1..], b);
      assert (a + b)[1..] == a[1..] + b && (a + b)[0] == a[0];
      var first := [LiteralValue(a[0])];
      assert (first + LiteralValues(a[1..])) + LiteralValues(b) == first + (LiteralValues(a[1..]) + LiteralValues(b));
    }
  }

  /** The strings and keys of a value in the order they are written. */
  function Strings(j: Json): seq<bytes>
    decreases j
  {
    match j
    case String(Some(s)) => [s]
    case Array(items) => ItemStrings(items)
    case Object(members) => MemberStrings(members)
    case _ => []
  }

  function ItemStrings(items: seq<Json>): seq<bytes>
    decreases items
  {
    if |items| == 0 then [] else Strings(items[0]) + ItemStrings(items[1..])
  }

  function MemberStrings(members: seq<Member>): seq<bytes>
    decreases members
  {
    if |members| == 0 then [] else OneMemberStrings(members[0]) + MemberStrings(members[1..])
  }

  function OneMemberStrings(m: Member): seq<bytes>
    decreases m
  {
    (match m.key case None => [] case Some(s) => [s]) + Strings(m.value)
  }

  /** A tree denotes a value with the strings of its literals. */
  lemma {:induction false} DenotedStrings(k: Codec, v: Cst)
    ensures Strings(Denote(k, v)) == LiteralValues(Bodies(v))
    decreases v
  {
    hide LiteralValue, DenoteItems, DenoteEntries, ItemStrings, MemberStrings, ItemBodies, EntriesBodies;
    match v
    case Literal(body) => assert LiteralValues([body]) == [LiteralValue(body)] + [];
    case List(_, items) => DenotedItemStrings(k, items);
    case Table(_, entries) => DenotedMemberStrings(k, entries);
    case _ =>
  }

  lemma {:induction false} DenotedItemStrings(k: Codec, items: seq<Element>)
    ensures ItemStrings(DenoteItems(k, items)) == LiteralValues(ItemBodies(items))
    decreases items
  {
    hide LiteralValue, LiteralValues, Denote, Strings, Bodies;
    if |items| == 0 {
      NoValues();
    } else {
      DenotedStrings(k, items[0].value);
      DenotedItemStrings(k, items[1..]);
      ValuesAppend(Bodies(items[0].value), ItemBodies(items[1..]));
      assert DenoteItems(k, items)[1..] == DenoteItems(k, items[1..]);
    }
  }

  lemma NoValues()
    ensures LiteralValues([]) == []
  {
  }

  lemma {:induction false} DenotedMemberStrings(k: Codec, entries: seq<Entry>)
    ensures MemberStrings(DenoteEntries(k, entries)) == LiteralValues(EntriesBodies(entries))
    decreases entries
  {
    hide LiteralValue, LiteralValues, EntryMember, OneMemberStrings, EntryBodies;
    if |entries| == 0 {
      NoValues();
    } else {
      DenotedEntryStrings(k, entries[0]);
      DenotedMemberStrings(k, entries[1..]);
      ValuesAppend(EntryBodies(entries[0]), EntriesBodies(entries[1..]));
      assert DenoteEntries(k, entries)[1..] == DenoteEntries(k, entries[1..]);
    }
  }

  lemma {:induction false} DenotedEntryStrings(k: Codec, e: Entry)
    ensures OneMemberStrings(EntryMember(k, e)) == LiteralValues(EntryBodies(e))
    decreases e
  {
    hide LiteralValue, Strings, Bodies, Denote;
    DenotedStrings(k, e.element.value);
    ValuesAppend([e.name], Bodies(e.element.value));
    assert LiteralValues([e.name]) == [LiteralValue(e.name)] + [];
  }

  // ----- main result -----

  /** An accepted text has one reading as literals, and the value has their strings. */
  lemma TextLiterals(k: Codec, text: bytes, e: Element)
    requires TextOf(text + [NUL], e)
    ensures Outside(text) == Some(Bodies(e.value))
    ensures Strings(Denote(k, e.value)) == LiteralValues(Bodies(e.value))
  {
    hide Outside, Bodies, Strings, Denote, LiteralValues, PutElement, LexicalElement;
    DenotedStrings(k, e.value);
    OutsideElement(e, [NUL]);
    OutsideNul();
    assert Bodies(e.value) + [] == Bodies(e.value);
    if text + [NUL] != PutElement(e, [NUL]) {
      OutsideOuter(BYTE_ORDER_MARK, PutElement(e, [NUL]));
    }
    OutsideEnd(text);
  }

  lemma OutsideNul()
    ensures Outside([NUL]) == Some([])
  {
    assert [NUL][1..] == [];
  }

  /** The terminator belongs to no literal. */
  lemma {:induction false} OutsideEnd(text: bytes)
    requires Outside(text + [NUL]).Some?
    ensures Outside(text) == Outside(text + [NUL])
    decreases |text|
  {
    var s := text + [NUL];
    if |text| == 0 {
      assert s == [NUL];
      OutsideNul();
    } else if text[0] == QUOTE {
      var t := text[1..];
      assert s[1..] == t + [NUL];
      var n := ScanLiteral(t + [NUL]).value;
      assert n < |t|;
      ScanShorter(t, [NUL]);
      assert (t + [NUL])[..n] == t[..n] && (t + [NUL])[n + 1..] == t[n + 1..] + [NUL];
      OutsideEnd(t[n + 1..]);
    } else {
      assert s[1..] == text[1..] + [NUL];
      OutsideEnd(text[1..]);
    }
  }

  /** A literal that ends inside `a` ends there whatever follows. */
  lemma {:induction false} ScanShorter(a: bytes, b: bytes)
    requires ScanLiteral(a + b).Some? && ScanLiteral(a + b).value < |a|
    ensures ScanLiteral(a) == ScanLiteral(a + b)
    decreases |a|
  {
    var s := a + b;
    if s[0] == QUOTE {
    } else if s[0] == BACKSLASH {
      assert |a| >= 2;
      assert s[2..] == a[2..] + b;
      ScanShorter(a[2..], b);
    } else {
      assert s[1..] == a[1..] + b;
      ScanShorter(a[1..], b);
    }
  }
}
