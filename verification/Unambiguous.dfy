/**
 * The language of the parser is unambiguous: two trees with the same text differ at most in what
 * they keep as the inside of brackets that are not empty.
 */
module Unambiguous {
  import opened Bytes
  import opened Values
  import opened Parser
  import opened Syntax
  import opened Language
  import opened Recognition

  // ----- trees without idle parts -----

  /** `pad` is text only between empty brackets. */
  function Unpadded(v: Cst): Cst
    decreases v
  {
    match v
    case List(pad, items) => List(if |items| == 0 then pad else [], UnpaddedItems(items))
    case Table(pad, entries) => Table(if |entries| == 0 then pad else [], UnpaddedEntries(entries))
    case _ => v
  }

  function UnpaddedElement(e: Element): Element
    decreases e
  {
    Element(e.before, Unpadded(e.value), e.after)
  }

  function UnpaddedItems(items: seq<Element>): (r: seq<Element>)
    ensures |r| == |items|
    decreases items
  {
    if |items| == 0 then [] else [UnpaddedElement(items[0])] + UnpaddedItems(items[1..])
  }

  function UnpaddedEntry(e: Entry): Entry
    decreases e
  {
    Entry(e.before, e.name, e.between, UnpaddedElement(e.element))
  }

  function UnpaddedEntries(entries: seq<Entry>): (r: seq<Entry>)
    ensures |r| == |entries|
    decreases entries
  {
    if |entries| == 0 then [] else [UnpaddedEntry(entries[0])] + UnpaddedEntries(entries[1..])
  }

  lemma NoneUnpadded()
    ensures UnpaddedItems([]) == [] && UnpaddedEntries([]) == []
  {
  }

  lemma {:induction false} PutUnpadded(v: Cst, rest: bytes)
    ensures Put(Unpadded(v), rest) == Put(v, rest) && (Lexical(v) ==> Lexical(Unpadded(v)))
    decreases v
  {
    hide PutItems, PutEntries, UnpaddedItems, UnpaddedEntries, LexicalItems, LexicalEntries;
    NoneUnpadded();
    match v
    case List(_, items) => if |items| > 0 { PutUnpaddedItems(items, [RBRACKET] + rest); }
    case Table(_, entries) => if |entries| > 0 { PutUnpaddedEntries(entries, [RBRACE] + rest); }
    case _ =>
  }

  lemma {:induction false} PutUnpaddedElement(e: Element, rest: bytes)
    ensures PutElement(UnpaddedElement(e), rest) == PutElement(e, rest) &&
            (LexicalElement(e) ==> LexicalElement(UnpaddedElement(e)))
    decreases e
  {
    PutUnpadded(e.value, e.after + rest);
  }

  lemma {:induction false} PutUnpaddedItems(items: seq<Element>, rest: bytes)
    requires |items| > 0
    ensures PutItems(UnpaddedItems(items), rest) == PutItems(items, rest) &&
            (LexicalItems(items) ==> LexicalItems(UnpaddedItems(items)))
    decreases items
  {
    hide PutElement, UnpaddedElement, LexicalElement;
    if |items| == 1 {
      PutUnpaddedElement(items[0], rest);
      assert items[1..] == [] && UnpaddedItems(items)[1..] == [];
    } else {
      PutUnpaddedItems(items[1..], rest);
      PutUnpaddedElement(items[0], [COMMA] + PutItems(items[1..], rest));
      assert UnpaddedItems(items)[1..] == UnpaddedItems(items[1..]);
    }
  }

  lemma {:induction false} PutUnpaddedEntry(e: Entry, rest: bytes)
    ensures PutEntry(UnpaddedEntry(e), rest) == PutEntry(e, rest) &&
            (LexicalEntry(e) ==> LexicalEntry(UnpaddedEntry(e)))
    decreases e
  {
    PutUnpaddedElement(e.element, rest);
  }

  lemma {:induction false} PutUnpaddedEntries(entries: seq<Entry>, rest: bytes)
    requires |entries| > 0
    ensures PutEntries(UnpaddedEntries(entries), rest) == PutEntries(entries, rest)
    ensures LexicalEntries(entries) ==> LexicalEntries(UnpaddedEntries(entries))
    decreases entries
  {
    hide PutEntry, UnpaddedEntry, LexicalEntry;
    if |entries| == 1 {
      PutUnpaddedEntry(entries[0], rest);
      assert entries[1..] == [] && UnpaddedEntries(entries)[1..] == [];
    } else {
      PutUnpaddedEntries(entries[1..], rest);
      PutUnpaddedEntry(entries[0], [COMMA] + PutEntries(entries[1..], rest));
      assert UnpaddedEntries(entries)[1..] == UnpaddedEntries(entries[1..]);
    }
  }

  // ----- where a part of the text ends -----

  predicate BlankByte(b: byte) {
    NUL < b <= SPACE
  }

  /** A separator or the end of the text: neither blank nor part of a number. */
  predicate Stopper(b: byte) {
    !BlankByte(b) && !NumberByte(b)
  }

  /** Bytes of one kind end where another kind begins. */
  lemma {:induction false} SplitRun(p: byte -> bool, a: bytes, b: bytes, x: bytes, y: bytes)
    requires (forall i :: 0 <= i < |a| ==> p(a[i])) && forall i :: 0 <= i < |b| ==> p(b[i])
    requires |x| > 0 && |y| > 0 && !p(x[0]) && !p(y[0]) && a + x == b + y
    ensures a == b && x == y
  {
    assert p((a + x)[0]) <==> |a| > 0;
    assert p((b + y)[0]) <==> |b| > 0;
    if |a| == 0 {
      assert a + x == x && b + y == y;
    } else {
      assert (a + x)[1..] == a[1..] + x && (b + y)[1..] == b[1..] + y;
      assert a[0] == (a + x)[0] == (b + y)[0] == b[0];
      SplitRun(p, a[1..], b[1..], x, y);
      assert a == [a[0]] + a[1..] && b == [b[0]] + b[1..];
    }
  }

  lemma SplitBlank(a: bytes, b: bytes, x: bytes, y: bytes)
    requires Blank(a) && Blank(b) && |x| > 0 && |y| > 0 && !BlankByte(x[0]) && !BlankByte(y[0]) && a + x == b + y
    ensures a == b && x == y
  {
    SplitRun(BlankByte, a, b, x, y);
  }

  lemma SplitNumber(a: bytes, b: bytes, x: bytes, y: bytes)
    requires NumberText(a) && NumberText(b) && |x| > 0 && |y| > 0 && !NumberByte(x[0]) && !NumberByte(y[0]) &&
             a + x == b + y
    ensures a == b && x == y
  {
    SplitRun(NumberByte, a, b, x, y);
  }

  lemma SplitLiteral(a: bytes, b: bytes, x: bytes, y: bytes)
    requires ClosedBody(a) && ClosedBody(b) && PutLiteral(a, x) == PutLiteral(b, y)
    ensures a == b && x == y
  {
    hide ScanLiteral;
    LiteralEnd(a, x);
    LiteralEnd(b, y);
    assert PutLiteral(a, x)[1..|a| + 1] == a && PutLiteral(b, y)[1..|b| + 1] == b;
    assert PutLiteral(a, x)[|a| + 2..] == x && PutLiteral(b, y)[|b| + 2..] == y;
  }

  lemma LiteralEnd(body: bytes, rest: bytes)
    requires ClosedBody(body)
    ensures ScanLiteral(PutLiteral(body, rest)[1..]) == Some(|body|)
  {
    hide ScanLiteral;
    Nest(body, [QUOTE], rest);
    ScanStable(body + [QUOTE], rest);
    assert PutLiteral(body, rest)[1..] == body + ([QUOTE] + rest);
  }

  // ----- one text, one tree -----

  /** The first byte tells what kind of value follows. */
  lemma Kinds(v: Cst, rest: bytes)
    requires Lexical(v)
    ensures |Put(v, rest)| > 0
    ensures var b := Put(v, rest)[0];
            match v
            case NullWord => b == 0x6E
            case FalseWord => b == 0x66
            case TrueWord => b == 0x74
            case Numeral(_) => NumberStart(b)
            case Literal(_) => b == QUOTE
            case List(_, _) => b == LBRACKET
            case Table(_, _) => b == LBRACE
  {
  }

  lemma {:induction false} UniquePut(v: Cst, w: Cst, x: bytes, y: bytes)
    requires Lexical(v) && Lexical(w) && |x| > 0 && |y| > 0 && !NumberByte(x[0]) && !NumberByte(y[0])
    requires Put(v, x) == Put(w, y)
    ensures Unpadded(v) == Unpadded(w) && x == y
    decreases v, 1
  {
    hide LexicalItems, LexicalEntries, PutItems, PutEntries, UnpaddedItems, UnpaddedEntries, ClosedBody, NumberText,
        NumberByte;
    Kinds(v, x);
    Kinds(w, y);
    match v
    case NullWord => WordEnds(NULL_TEXT, x, y);
    case FalseWord => WordEnds(FALSE_TEXT, x, y);
    case TrueWord => WordEnds(TRUE_TEXT, x, y);
    case Numeral(a) => SplitNumber(a, w.lexeme, x, y);
    case Literal(a) => SplitLiteral(a, w.body, x, y);
    case List(_, _) => UniqueList(v, w, x, y);
    case Table(_, _) => UniqueTable(v, w, x, y);
  }

  lemma WordEnds(word: bytes, x: bytes, y: bytes)
    requires word + x == word + y
    ensures x == y
  {
    assert x == (word + x)[|word|..] && y == (word + y)[|word|..];
  }

  lemma {:induction false} UniqueList(v: Cst, w: Cst, x: bytes, y: bytes)
    requires v.List? && w.List? && Lexical(v) && Lexical(w) && |x| > 0 && |y| > 0 && Put(v, x) == Put(w, y)
    ensures Unpadded(v) == Unpadded(w) && x == y
    decreases v, 0
  {
    hide LexicalItems, PutItems, UnpaddedItems;
    var ends, ends' := [RBRACKET] + x, [RBRACKET] + y;
    ListInside(v, x);
    ListInside(w, y);
    if |v.items| == 0 && |w.items| == 0 {
      SplitBlank(v.pad, w.pad, ends, ends');
      WordEnds([RBRACKET], x, y);
      NoneUnpadded();
    } else if |v.items| == 0 {
      NotEmpty(v.pad, ends, w.items, ends');
    } else if |w.items| == 0 {
      NotEmpty(w.pad, ends', v.items, ends);
    } else {
      UniqueItems(v.items, w.items, ends, ends');
      WordEnds([RBRACKET], x, y);
    }
  }

  lemma ListInside(v: Cst, x: bytes)
    requires v.List?
    ensures Put(v, x)[1..] == if |v.items| == 0 then v.pad + ([RBRACKET] + x) else PutItems(v.items, [RBRACKET] + x)
  {
    hide PutItems;
  }

  lemma ValueStarts(v: Cst, rest: bytes)
    requires Lexical(v)
    ensures var s := Put(v, rest); |s| > 0 && !BlankByte(s[0]) && s[0] != RBRACKET
  {
    FirstByte(v, rest);
    Kinds(v, rest);
  }

  /** Brackets with items in them are not the text of empty ones. */
  lemma NotEmpty(pad: bytes, ends: bytes, items: seq<Element>, tail: bytes)
    requires Blank(pad) && |ends| > 0 && ends[0] == RBRACKET && |items| > 0 && LexicalItems(items)
    ensures pad + ends != PutItems(items, tail)
  {
    hide Put, Lexical;
    var e := items[0];
    var rest := if |items| == 1 then tail else [COMMA] + PutItems(items[1..], tail);
    var value := Put(e.value, e.after + rest);
    ValueStarts(e.value, e.after + rest);
    assert PutItems(items, tail) == e.before + value;
    if pad + ends == e.before + value {
      SplitBlank(pad, e.before, ends, value);
    }
  }

  lemma {:induction false} UniqueElement(e: Element, f: Element, x: bytes, y: bytes)
    requires LexicalElement(e) && LexicalElement(f) && |x| > 0 && |y| > 0 && Stopper(x[0]) && Stopper(y[0])
    requires PutElement(e, x) == PutElement(f, y)
    ensures UnpaddedElement(e) == UnpaddedElement(f) && x == y
    decreases e
  {
    hide Put, Lexical, Unpadded;
    ValueStarts(e.value, e.after + x);
    ValueStarts(f.value, f.after + y);
    SplitBlank(e.before, f.before, Put(e.value, e.after + x), Put(f.value, f.after + y));
    UniquePut(e.value, f.value, e.after + x, f.after + y);
    SplitBlank(e.after, f.after, x, y);
  }

  /** What follows the first of some items. */
  function ItemsTail(items: seq<Element>, ends: bytes): (r: bytes)
    requires |items| > 0
  {
    if |items| == 1 then ends else [COMMA] + PutItems(items[1..], ends)
  }

  lemma FirstOfItems(items: seq<Element>, ends: bytes)
    requires |items| > 0 && LexicalItems(items)
    ensures LexicalElement(items[0]) && LexicalItems(items[1..])
    ensures PutItems(items, ends) == PutElement(items[0], ItemsTail(items, ends))
    ensures UnpaddedItems(items) == [UnpaddedElement(items[0])] + UnpaddedItems(items[1..])
  {
  }

  lemma {:induction false} UniqueItems(items: seq<Element>, others: seq<Element>, x: bytes, y: bytes)
    requires |items| > 0 && |others| > 0 && LexicalItems(items) && LexicalItems(others)
    requires |x| > 0 && |y| > 0 && x[0] == y[0] == RBRACKET && PutItems(items, x) == PutItems(others, y)
    ensures UnpaddedItems(items) == UnpaddedItems(others) && x == y
    decreases items
  {
    hide PutItems, LexicalItems, UnpaddedItems, PutElement, LexicalElement, UnpaddedElement;
    FirstOfItems(items, x);
    FirstOfItems(others, y);
    UniqueElement(items[0], others[0], ItemsTail(items, x), ItemsTail(others, y));
    if |items| == 1 {
      assert items[1..] == [] && others[1..] == [];
    } else {
      WordEnds([COMMA], PutItems(items[1..], x), PutItems(others[1..], y));
      UniqueItems(items[1..], others[1..], x, y);
    }
  }

  lemma {:induction false} UniqueTable(v: Cst, w: Cst, x: bytes, y: bytes)
    requires v.Table? && w.Table? && Lexical(v) && Lexical(w) && |x| > 0 && |y| > 0 && Put(v, x) == Put(w, y)
    ensures Unpadded(v) == Unpadded(w) && x == y
    decreases v, 0
  {
    hide LexicalEntries, PutEntries, UnpaddedEntries;
    var ends, ends' := [RBRACE] + x, [RBRACE] + y;
    TableInside(v, x);
    TableInside(w, y);
    if |v.entries| == 0 && |w.entries| == 0 {
      SplitBlank(v.pad, w.pad, ends, ends');
      WordEnds([RBRACE], x, y);
      NoneUnpadded();
    } else if |v.entries| == 0 {
      NotEmptyTable(v.pad, ends, w.entries, ends');
    } else if |w.entries| == 0 {
      NotEmptyTable(w.pad, ends', v.entries, ends);
    } else {
      UniqueEntries(v.entries, w.entries, ends, ends');
      WordEnds([RBRACE], x, y);
    }
  }

  lemma TableInside(v: Cst, x: bytes)
    requires v.Table?
    ensures Put(v, x)[1..] == if |v.entries| == 0 then v.pad + ([RBRACE] + x) else PutEntries(v.entries, [RBRACE] + x)
  {
    hide PutEntries;
  }

  lemma NotEmptyTable(pad: bytes, ends: bytes, entries: seq<Entry>, tail: bytes)
    requires Blank(pad) && |ends| > 0 && ends[0] == RBRACE && |entries| > 0 && LexicalEntries(entries)
    ensures pad + ends != PutEntries(entries, tail)
  {
    hide PutElement, ClosedBody, LexicalElement;
    var e := entries[0];
    var rest := EntriesTail(entries, tail);
    var literal := PutLiteral(e.name, e.between + ([COLON] + PutElement(e.element, rest)));
    assert PutEntries(entries, tail) == e.before + literal;
    if pad + ends == e.before + literal {
      SplitBlank(pad, e.before, ends, literal);
    }
  }

  lemma {:induction false} UniqueEntry(e: Entry, f: Entry, x: bytes, y: bytes)
    requires LexicalEntry(e) && LexicalEntry(f) && |x| > 0 && |y| > 0 && Stopper(x[0]) && Stopper(y[0])
    requires PutEntry(e, x) == PutEntry(f, y)
    ensures UnpaddedEntry(e) == UnpaddedEntry(f) && x == y
    decreases e
  {
    hide PutElement, ClosedBody, LexicalElement, UnpaddedElement;
    var value, value' := [COLON] + PutElement(e.element, x), [COLON] + PutElement(f.element, y);
    SplitBlank(e.before, f.before, PutLiteral(e.name, e.between + value), PutLiteral(f.name, f.between + value'));
    SplitLiteral(e.name, f.name, e.between + value, f.between + value');
    SplitBlank(e.between, f.between, value, value');
    WordEnds([COLON], PutElement(e.element, x), PutElement(f.element, y));
    UniqueElement(e.element, f.element, x, y);
  }

  function EntriesTail(entries: seq<Entry>, ends: bytes): (r: bytes)
    requires |entries| > 0
  {
    if |entries| == 1 then ends else [COMMA] + PutEntries(entries[1..], ends)
  }

  lemma FirstOfEntries(entries: seq<Entry>, ends: bytes)
    requires |entries| > 0 && LexicalEntries(entries)
    ensures LexicalEntry(entries[0]) && LexicalEntries(entries[1..])
    ensures PutEntries(entries, ends) == PutEntry(entries[0], EntriesTail(entries, ends))
    ensures UnpaddedEntries(entries) == [UnpaddedEntry(entries[0])] + UnpaddedEntries(entries[1..])
  {
  }

  lemma {:induction false} UniqueEntries(entries: seq<Entry>, others: seq<Entry>, x: bytes, y: bytes)
    requires |entries| > 0 && |others| > 0 && LexicalEntries(entries) && LexicalEntries(others)
    requires |x| > 0 && |y| > 0 && x[0] == y[0] == RBRACE && PutEntries(entries, x) == PutEntries(others, y)
    ensures UnpaddedEntries(entries) == UnpaddedEntries(others) && x == y
    decreases entries
  {
    hide PutEntries, LexicalEntries, UnpaddedEntries, PutEntry, LexicalEntry, UnpaddedEntry;
    FirstOfEntries(entries, x);
    FirstOfEntries(others, y);
    UniqueEntry(entries[0], others[0], EntriesTail(entries, x), EntriesTail(others, y));
    if |entries| == 1 {
      assert entries[1..] == [] && others[1..] == [];
    } else {
      WordEnds([COMMA], PutEntries(entries[1..], x), PutEntries(others[1..], y));
      UniqueEntries(entries[1..], others[1..], x, y);
    }
  }

  // ----- main result -----

  /** All trees of a text are the same tree, and all have the byte order mark or none has. */
  lemma OneTree(s: bytes, e: Element, f: Element)
    requires TextOf(s, e) && TextOf(s, f)
    ensures UnpaddedElement(e) == UnpaddedElement(f)
    ensures s == PutElement(e, [NUL]) <==> s == PutElement(f, [NUL])
  {
    hide PutElement, LexicalElement, UnpaddedElement;
    NoMark(e);
    NoMark(f);
    MarkStarts(PutElement(e, [NUL]));
    MarkStarts(PutElement(f, [NUL]));
    if s == PutElement(e, [NUL]) {
      UniqueElement(e, f, [NUL], [NUL]);
    } else {
      WordEnds(BYTE_ORDER_MARK, PutElement(e, [NUL]), PutElement(f, [NUL]));
      UniqueElement(e, f, [NUL], [NUL]);
    }
  }

  lemma MarkStarts(t: bytes)
    ensures StartsWith(BYTE_ORDER_MARK + t, BYTE_ORDER_MARK)
  {
    assert (BYTE_ORDER_MARK + t)[..3] == BYTE_ORDER_MARK;
  }
}
