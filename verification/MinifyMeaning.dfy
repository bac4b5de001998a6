/** Exactly when minifying an accepted text keeps what it means. */
module MinifyMeaning {
  import opened Bytes
  import opened Values
  import opened Parser
  import opened Syntax
  import opened Language
  import opened Recognition
  import opened Minifier
  import opened Literals
  import opened Losses
  import opened Misreading
  import opened Minification

  /** The state of Minify behind these literals. */
  predicate Behind(bodies: seq<bytes>, misread: bool) {
    if |bodies| == 0 then misread else Behind(bodies[1..], After(misread, bodies[0]))
  }

  lemma {:induction false} KeptAppend(a: seq<bytes>, b: seq<bytes>, f: bool)
    ensures Kept(a + b, f) <==> Kept(a, f) && Kept(b, Behind(a, f))
    ensures Behind(a + b, f) == Behind(b, Behind(a, f))
  {
    hide Survives, After;
    if |a| == 0 {
      assert a + b == b;
    } else {
      assert (a + b)[1..] == a[1..] + b && (a + b)[0] == a[0];
      KeptAppend(a[1..], b, After(f, a[0]));
    }
  }

  lemma KeptOne(u: bytes, f: bool)
    ensures Kept([u], f) <==> (f ==> Survives(u))
    ensures Behind([u], f) == After(f, u)
  {
    assert [u][1..] == [];
  }

  // ----- the tree that is left -----

  function Trim(blanks: bytes, f: bool): bytes {
    if f then blanks else Squeeze(blanks)
  }

  /** What is left of a literal. */
  function Left(body: bytes, f: bool): bytes {
    if f then Minify(body) else body
  }

  function TrimValue(v: Cst, f: bool): Cst
    decreases v
  {
    match v
    case Literal(body) => Literal(Left(body, f))
    case List(pad, items) => List(Trim(pad, f), TrimItems(items, f))
    case Table(pad, entries) => Table(Trim(pad, f), TrimEntries(entries, f))
    case _ => v
  }

  function TrimElement(e: Element, f: bool): Element
    decreases e
  {
    Element(Trim(e.before, f), TrimValue(e.value, f), Trim(e.after, Behind(Bodies(e.value), f)))
  }

  function TrimItems(items: seq<Element>, f: bool): (r: seq<Element>)
    ensures |r| == |items|
    decreases items
  {
    if |items| == 0 then [] else [TrimElement(items[0], f)] + TrimItems(items[1..], Behind(Bodies(items[0].value), f))
  }

  function TrimEntry(e: Entry, f: bool): Entry
    decreases e
  {
    var f' := After(f, e.name);
    Entry(Trim(e.before, f), Left(e.name, f), Trim(e.between, f'), TrimElement(e.element, f'))
  }

  function TrimEntries(entries: seq<Entry>, f: bool): (r: seq<Entry>)
    ensures |r| == |entries|
    decreases entries
  {
    if |entries| == 0 then []
    else [TrimEntry(entries[0], f)] + TrimEntries(entries[1..], Behind(EntryBodies(entries[0]), f))
  }

  // ----- its text is what Minify writes -----

  lemma EmitByte(b: byte, rest: bytes, f: bool)
    requires Outer(b) && (f || !Removable(b))
    ensures Emit([b] + rest, f) == [b] + Emit(rest, f)
  {
    hide Minify, Copying;
    WrittenByte([b] + rest, f, false);
    assert ([b] + rest)[1..] == rest;
  }

  lemma {:induction false} EmitWord(word: bytes, rest: bytes, f: bool)
    requires forall i :: 0 <= i < |word| ==> Outer(word[i]) && (f || !Removable(word[i]))
    ensures Emit(word + rest, f) == word + Emit(rest, f)
  {
    hide Emit;
    if |word| == 0 {
      assert word + rest == rest && word + Emit(rest, f) == Emit(rest, f);
    } else {
      EmitWord(word[1..], rest, f);
      EmitByte(word[0], word[1..] + rest, f);
      HeadTail(word);
      Nest([word[0]], word[1..], rest);
      Nest([word[0]], word[1..], Emit(rest, f));
    }
  }

  lemma EmitBlanks(blanks: bytes, rest: bytes, f: bool)
    requires Blank(blanks)
    ensures Emit(blanks + rest, f) == Trim(blanks, f) + Emit(rest, f)
  {
    if f {
      EmitWord(blanks, rest, f);
    } else {
      MinifyBlanks(blanks, rest);
    }
  }

  lemma ClosedWithin(body: bytes)
    requires ClosedBody(body)
    ensures Within(body, false)
  {
    ScanWithin(body + [QUOTE]);
    assert (body + [QUOTE])[..|body|] == body;
  }

  lemma EmitLiteral(body: bytes, rest: bytes, f: bool)
    requires ClosedBody(body) && (f ==> Survives(body))
    ensures Emit(PutLiteral(body, rest), f) == PutLiteral(Left(body, f), Emit(rest, After(f, body)))
  {
    hide Minify, Copying, Within, ClosedBody, CommentsEnd, Unescape, CString, StillMisread, LastIsBackslash;
    var full := body + ([QUOTE] + rest);
    ClosedWithin(body);
    WrittenByte([QUOTE] + full, f, false);
    assert ([QUOTE] + full)[1..] == full;
    if f {
      MisreadRun(body, false, rest);
    } else {
      CopiedRun(body, rest);
    }
  }

  lemma {:induction false} EmitPut(v: Cst, rest: bytes, f: bool)
    requires Lexical(v) && Kept(Bodies(v), f)
    ensures Emit(Put(v, rest), f) == Put(TrimValue(v, f), Emit(rest, Behind(Bodies(v), f)))
    decreases v
  {
    hide Emit, ClosedBody, Survives, After, Left, PutItems, PutEntries, TrimItems, TrimEntries, LexicalItems,
        LexicalEntries, Trim;
    match v
    case NullWord => EmitWord(NULL_TEXT, rest, f);
    case FalseWord => EmitWord(FALSE_TEXT, rest, f);
    case TrueWord => EmitWord(TRUE_TEXT, rest, f);
    case Numeral(lexeme) => EmitWord(lexeme, rest, f);
    case Literal(body) => KeptOne(body, f); EmitLiteral(body, rest, f);
    case List(pad, items) => EmitList(v, rest, f);
    case Table(pad, entries) => EmitTable(v, rest, f);
  }

  lemma {:induction false} EmitList(v: Cst, rest: bytes, f: bool)
    requires v.List? && Lexical(v) && Kept(Bodies(v), f)
    ensures Emit(Put(v, rest), f) == Put(TrimValue(v, f), Emit(rest, Behind(Bodies(v), f)))
    decreases v, 0
  {
    hide Emit, PutItems, TrimItems, LexicalItems, Trim, ItemBodies;
    var end := [RBRACKET] + rest;
    if |v.items| == 0 {
      NoItemBodies();
      EmitByte(RBRACKET, rest, f);
      EmitBlanks(v.pad, end, f);
      EmitByte(LBRACKET, v.pad + end, f);
    } else {
      EmitByte(RBRACKET, rest, Behind(Bodies(v), f));
      EmitItems(v.items, end, f);
      EmitByte(LBRACKET, PutItems(v.items, end), f);
    }
  }

  lemma {:induction false} EmitTable(v: Cst, rest: bytes, f: bool)
    requires v.Table? && Lexical(v) && Kept(Bodies(v), f)
    ensures Emit(Put(v, rest), f) == Put(TrimValue(v, f), Emit(rest, Behind(Bodies(v), f)))
    decreases v, 0
  {
    hide Emit, PutEntries, TrimEntries, LexicalEntries, Trim, EntriesBodies;
    var end := [RBRACE] + rest;
    if |v.entries| == 0 {
      NoItemBodies();
      EmitByte(RBRACE, rest, f);
      EmitBlanks(v.pad, end, f);
      EmitByte(LBRACE, v.pad + end, f);
    } else {
      EmitByte(RBRACE, rest, Behind(Bodies(v), f));
      EmitEntries(v.entries, end, f);
      EmitByte(LBRACE, PutEntries(v.entries, end), f);
    }
  }

  lemma {:induction false} EmitElement(e: Element, rest: bytes, f: bool)
    requires LexicalElement(e) && Kept(Bodies(e.value), f)
    ensures Emit(PutElement(e, rest), f) == PutElement(TrimElement(e, f), Emit(rest, Behind(Bodies(e.value), f)))
    decreases e
  {
    hide Emit, Bodies, Trim;
    EmitBlanks(e.before, Put(e.value, e.after + rest), f);
    EmitPut(e.value, e.after + rest, f);
    EmitBlanks(e.after, rest, Behind(Bodies(e.value), f));
  }

  lemma {:induction false} EmitItems(items: seq<Element>, rest: bytes, f: bool)
    requires |items| > 0 && LexicalItems(items) && Kept(ItemBodies(items), f)
    ensures Emit(PutItems(items, rest), f) == PutItems(TrimItems(items, f), Emit(rest, Behind(ItemBodies(items), f)))
    decreases items
  {
    hide Emit, Bodies, Trim, Kept, Behind, PutElement;
    var first := Bodies(items[0].value);
    var g := Behind(first, f);
    KeptAppend(first, ItemBodies(items[1..]), f);
    if |items| == 1 {
      assert items[1..] == [];
      NoItemBodies();
      assert first + [] == first;
      EmitElement(items[0], rest, f);
    } else {
      EmitItems(items[1..], rest, g);
      EmitByte(COMMA, PutItems(items[1..], rest), g);
      EmitElement(items[0], [COMMA] + PutItems(items[1..], rest), f);
      assert TrimItems(items, f)[1..] == TrimItems(items[1..], g);
    }
  }

  lemma {:induction false} EmitEntry(e: Entry, rest: bytes, f: bool)
    requires LexicalEntry(e) && Kept(EntryBodies(e), f)
    ensures Emit(PutEntry(e, rest), f) == PutEntry(TrimEntry(e, f), Emit(rest, Behind(EntryBodies(e), f)))
    decreases e
  {
    hide Emit, Bodies, Trim, Kept, Behind, PutElement, PutLiteral, ClosedBody, Survives, After, Left;
    var g := After(f, e.name);
    KeptOne(e.name, f);
    KeptAppend([e.name], Bodies(e.element.value), f);
    var value := PutElement(e.element, rest);
    EmitElement(e.element, rest, g);
    EmitByte(COLON, value, g);
    EmitBlanks(e.between, [COLON] + value, g);
    EmitLiteral(e.name, e.between + ([COLON] + value), f);
    EmitBlanks(e.before, PutLiteral(e.name, e.between + ([COLON] + value)), f);
  }

  lemma {:induction false} EmitEntries(entries: seq<Entry>, rest: bytes, f: bool)
    requires |entries| > 0 && LexicalEntries(entries) && Kept(EntriesBodies(entries), f)
    ensures Emit(PutEntries(entries, rest), f) ==
            PutEntries(TrimEntries(entries, f), Emit(rest, Behind(EntriesBodies(entries), f)))
    decreases entries
  {
    hide Emit, EntryBodies, Trim, Kept, Behind, PutEntry;
    var first := EntryBodies(entries[0]);
    var g := Behind(first, f);
    KeptAppend(first, EntriesBodies(entries[1..]), f);
    if |entries| == 1 {
      assert entries[1..] == [];
      NoItemBodies();
      assert first + [] == first;
      EmitEntry(entries[0], rest, f);
    } else {
      EmitEntries(entries[1..], rest, g);
      EmitByte(COMMA, PutEntries(entries[1..], rest), g);
      EmitEntry(entries[0], [COMMA] + PutEntries(entries[1..], rest), f);
      assert TrimEntries(entries, f)[1..] == TrimEntries(entries[1..], g);
    }
  }

  // ----- and it is read as the same value -----

  lemma TrimmedBlank(blanks: bytes, f: bool)
    requires Blank(blanks)
    ensures Blank(Trim(blanks, f))
  {
    SqueezedBlank(blanks);
  }

  /** What is left of a literal that survives is read as the same string. */
  lemma LeftIsRead(body: bytes, f: bool)
    requires ClosedBody(body) && (f ==> Survives(body))
    ensures ClosedBody(Left(body, f)) && LiteralValue(Left(body, f)) == LiteralValue(body)
    ensures Unescape(Left(body, f), []).Done? <==> Unescape(body, []).Done?
  {
    hide Minify, Unescape, CString, CommentsEnd, ScanLiteral, Within;
    if f {
      MinifyNulFree(body);
      WithinScan(Minify(body), []);
      NoPrefix([QUOTE]);
    }
  }

  lemma {:induction false} TrimKeeps(k: Codec, v: Cst, d: nat, f: bool)
    requires Lexical(v) && Kept(Bodies(v), f)
    ensures var t := TrimValue(v, f);
            Lexical(t) && (Accepted(k, t, d) <==> Accepted(k, v, d)) && Denote(k, t) == Denote(k, v)
    decreases v
  {
    hide TrimItems, TrimEntries, Trim, LexicalItems, LexicalEntries, AcceptedItems, AcceptedEntries, DenoteItems,
        DenoteEntries;
    hide ClosedBody, Survives, Left, Unescape, LiteralValue, ItemBodies, EntriesBodies, After;
    match v
    case Literal(body) =>
      KeptOne(body, f);
      LeftIsRead(body, f);
    case List(pad, items) =>
      TrimmedBlank(pad, f);
      TrimKeepsItems(k, items, d + 1, f);
    case Table(pad, entries) =>
      TrimmedBlank(pad, f);
      TrimKeepsEntries(k, entries, d + 1, f);
    case _ =>
  }

  lemma {:induction false} TrimKeepsElement(k: Codec, e: Element, d: nat, f: bool)
    requires LexicalElement(e) && Kept(Bodies(e.value), f)
    ensures var t := TrimElement(e, f);
            LexicalElement(t) && (Accepted(k, t.value, d) <==> Accepted(k, e.value, d)) &&
            Denote(k, t.value) == Denote(k, e.value)
    decreases e
  {
    hide Trim, Bodies, Behind, Kept;
    TrimmedBlank(e.before, f);
    TrimmedBlank(e.after, Behind(Bodies(e.value), f));
    TrimKeeps(k, e.value, d, f);
  }

  lemma {:induction false} TrimKeepsItems(k: Codec, items: seq<Element>, d: nat, f: bool)
    requires LexicalItems(items) && Kept(ItemBodies(items), f)
    ensures var t := TrimItems(items, f);
            LexicalItems(t) && (AcceptedItems(k, t, d) <==> AcceptedItems(k, items, d)) &&
            DenoteItems(k, t) == DenoteItems(k, items)
    decreases items
  {
    hide Bodies, Behind, Kept, TrimElement, LexicalElement, Accepted, Denote;
    if |items| > 0 {
      KeptAppend(Bodies(items[0].value), ItemBodies(items[1..]), f);
      var g := Behind(Bodies(items[0].value), f);
      TrimKeepsElement(k, items[0], d, f);
      TrimKeepsItems(k, items[1..], d, g);
      assert TrimItems(items, f)[0] == TrimElement(items[0], f) && TrimItems(items, f)[1..] == TrimItems(items[1..], g);
    }
  }

  lemma {:induction false} TrimKeepsEntry(k: Codec, e: Entry, d: nat, f: bool)
    requires LexicalEntry(e) && Kept(EntryBodies(e), f)
    ensures var t := TrimEntry(e, f);
            LexicalEntry(t) && (AcceptedEntry(k, t, d) <==> AcceptedEntry(k, e, d)) &&
            EntryMember(k, t) == EntryMember(k, e)
    decreases e
  {
    hide Trim, After, Kept, Bodies, Survives, Left, ClosedBody, Unescape, LiteralValue, LexicalElement, Accepted,
        Denote;
    var g := After(f, e.name);
    KeptOne(e.name, f);
    KeptAppend([e.name], Bodies(e.element.value), f);
    LeftIsRead(e.name, f);
    TrimmedBlank(e.before, f);
    TrimmedBlank(e.between, g);
    TrimKeepsElement(k, e.element, d, g);
  }

  lemma {:induction false} TrimKeepsEntries(k: Codec, entries: seq<Entry>, d: nat, f: bool)
    requires LexicalEntries(entries) && Kept(EntriesBodies(entries), f)
    ensures var t := TrimEntries(entries, f);
            LexicalEntries(t) && (AcceptedEntries(k, t, d) <==> AcceptedEntries(k, entries, d)) &&
            DenoteEntries(k, t) == DenoteEntries(k, entries)
    decreases entries
  {
    hide EntryBodies, Behind, Kept, TrimEntry, LexicalEntry, AcceptedEntry, EntryMember;
    if |entries| > 0 {
      KeptAppend(EntryBodies(entries[0]), EntriesBodies(entries[1..]), f);
      var g := Behind(EntryBodies(entries[0]), f);
      TrimKeepsEntry(k, entries[0], d, f);
      TrimKeepsEntries(k, entries[1..], d, g);
      assert TrimEntries(entries, f)[0] == TrimEntry(entries[0], f) &&
        TrimEntries(entries, f)[1..] == TrimEntries(entries[1..], g);
    }
  }

  // ----- the literals of an accepted tree -----

  predicate AllRead(bodies: seq<bytes>) {
    forall i :: 0 <= i < |bodies| ==> ClosedBody(bodies[i]) && Unescape(bodies[i], []).Done?
  }

  lemma {:induction false} BodiesAreRead(k: Codec, v: Cst, d: nat)
    requires Lexical(v) && Accepted(k, v, d)
    ensures AllRead(Bodies(v))
    decreases v
  {
    hide ClosedBody, Unescape, LexicalItems, LexicalEntries, AcceptedItems, AcceptedEntries, ItemBodies, EntriesBodies;
    match v
    case List(_, items) => ItemsAreRead(k, items, d + 1);
    case Table(_, entries) => EntriesAreRead(k, entries, d + 1);
    case _ =>
  }

  lemma {:induction false} ItemsAreRead(k: Codec, items: seq<Element>, d: nat)
    requires LexicalItems(items) && AcceptedItems(k, items, d)
    ensures AllRead(ItemBodies(items))
    decreases items
  {
    hide ClosedBody, Unescape, Bodies;
    if |items| > 0 {
      assert LexicalElement(items[0]);
      BodiesAreRead(k, items[0].value, d);
      ItemsAreRead(k, items[1..], d);
    }
  }

  lemma {:induction false} EntriesAreRead(k: Codec, entries: seq<Entry>, d: nat)
    requires LexicalEntries(entries) && AcceptedEntries(k, entries, d)
    ensures AllRead(EntriesBodies(entries))
    decreases entries
  {
    hide ClosedBody, Unescape, Bodies;
    if |entries| > 0 {
      var e := entries[0];
      assert LexicalEntry(e) && AcceptedEntry(k, e, d) && LexicalElement(e.element);
      BodiesAreRead(k, e.element.value, d);
      EntriesAreRead(k, entries[1..], d);
      assert EntriesBodies(entries) == EntryBodies(e) + EntriesBodies(entries[1..]);
    }
  }

  // ----- main result -----

  lemma {:induction false} SameValuesReread(now: seq<bytes>, before: seq<bytes>)
    requires LiteralValues(now) == LiteralValues(before) && AllRead(now) && AllRead(before)
    ensures Rereads(now, before)
  {
    hide Unescape, CString, ScanLiteral;
    assert |now| == |LiteralValues(now)| == |before|;
    if |now| > 0 {
      assert LiteralValues(now)[0] == LiteralValue(now[0]) && LiteralValues(before)[0] == LiteralValue(before[0]);
      assert LiteralValues(now)[1..] == LiteralValues(now[1..]) &&
        LiteralValues(before)[1..] == LiteralValues(before[1..]);
      SameValuesReread(now[1..], before[1..]);
    }
  }

  lemma NulFreeHasOneNul(text: bytes)
    requires NulFree(text)
    ensures OneNul(text + [NUL])
  {
  }

  lemma MinifiedElement(e: Element)
    requires LexicalElement(e) && Kept(Bodies(e.value), false)
    ensures Minify(PutElement(e, [])) + [NUL] == PutElement(TrimElement(e, false), [NUL])
  {
    hide PutElement, Minify, LexicalElement, Bodies, Kept, Behind, TrimElement;
    EmitElement(e, [], false);
    EmitNothing(Behind(Bodies(e.value), false));
    ElementThen(TrimElement(e, false), [], [NUL]);
    NoPrefix([NUL]);
  }

  /** Minify writes the text of the trimmed tree, and leaves a byte order mark. */
  lemma MinifiedText(text: bytes, e: Element)
    requires TextOf(text + [NUL], e) && Kept(Bodies(e.value), false)
    ensures var s, now := Minify(text) + [NUL], PutElement(TrimElement(e, false), [NUL]);
            s == now || s == BYTE_ORDER_MARK + now
  {
    hide PutElement, Minify, LexicalElement, Bodies, Kept, TrimElement;
    var t := PutElement(e, []);
    MinifiedElement(e);
    ElementThen(e, [], [NUL]);
    NoPrefix([NUL]);
    if text + [NUL] == PutElement(e, [NUL]) {
      SameText(text, t);
    } else {
      Nest(BYTE_ORDER_MARK, t, [NUL]);
      SameText(text, BYTE_ORDER_MARK + t);
      MarkedText(t);
    }
  }

  lemma MarkedText(t: bytes)
    ensures Minify(BYTE_ORDER_MARK + t) + [NUL] == BYTE_ORDER_MARK + (Minify(t) + [NUL])
  {
    hide Minify;
    EmitWord(BYTE_ORDER_MARK, t, false);
    Nest(BYTE_ORDER_MARK, Minify(t), [NUL]);
  }

  /** What is kept, text by text. */
  lemma KeptKeepsParse(k: Codec, text: bytes, e: Element)
    requires TextOf(text + [NUL], e) && Accepted(k, e.value, 0) && Kept(Bodies(e.value), false)
    ensures Terminated(Minify(text) + [NUL]) && Parse(k, Minify(text) + [NUL], true) == Done(Denote(k, e.value), [NUL])
  {
    hide PutElement, Minify, LexicalElement, Accepted, Denote, Bodies, Kept, Parse, TrimElement;
    TrimKeepsElement(k, e, 0, false);
    ParsesText(k, TrimElement(e, false));
    MinifiedText(text, e);
  }

  lemma EmitNothing(f: bool)
    ensures Emit([], f) == []
  {
  }

  lemma LexicalValue(e: Element)
    requires LexicalElement(e)
    ensures Lexical(e.value)
  {
  }

  // ----- what that means for the bytes -----

  /** No literal denotes a string with U+0000. */
  predicate WithoutNul(bodies: seq<bytes>) {
    forall i :: 0 <= i < |bodies| ==> Unescape(bodies[i], []).Done? ==> NulFree(Unescape(bodies[i], []).value)
  }

  /**
   * Literals that lose nothing survive; and where no string holds U+0000, only these do: no blank or
   * slash may come before the first quote of a literal that is misread.
   */
  lemma {:induction false} SparedIsKept(bodies: seq<bytes>, f: bool)
    requires AllRead(bodies)
    ensures Spared(bodies, f) ==> Kept(bodies, f)
    ensures WithoutNul(bodies) ==> (Kept(bodies, f) <==> Spared(bodies, f))
  {
    hide SparedBody, Survives, After, Unescape, ScanLiteral;
    if |bodies| > 0 {
      assert ClosedBody(bodies[0]);
      ClosedWithin(bodies[0]);
      SparedSurvives(bodies[0]);
      SparedIsKept(bodies[1..], After(f, bodies[0]));
    }
  }

  // ----- the theorem -----

  /**
   * Minifying an accepted text keeps what it means exactly when every literal that Minify misreads
   * survives it; and, unless a string holds U+0000, exactly when each of them is spared.
   */
  lemma MinifyPreservesMeaning(k: Codec, text: bytes)
    requires NulFree(text) && Parse(k, text + [NUL], true).Done?
    ensures Outside(text).Some? && AllRead(Outside(text).value) && Terminated(Minify(text) + [NUL])
    ensures Parse(k, Minify(text) + [NUL], true) == Parse(k, text + [NUL], true) <==> Kept(Outside(text).value, false)
    ensures Spared(Outside(text).value, false) ==> Kept(Outside(text).value, false)
    ensures WithoutNul(Outside(text).value) ==>
            (Kept(Outside(text).value, false) <==> Spared(Outside(text).value, false))
  {
    hide PutElement, Minify, LexicalElement, Accepted, Denote, Bodies, Kept, Outside, ParseValue;
    hide AllRead, Rereads, LiteralValues, Strings, Spared, WithoutNul;
    NulFreeHasOneNul(text);
    MinifyNulFree(text);
    NulFreeHasOneNul(Minify(text));
    var e := ReadsText(k, text + [NUL]);
    var before := Bodies(e.value);
    TextLiterals(k, text, e);
    LexicalValue(e);
    BodiesAreRead(k, e.value, 0);
    SparedIsKept(before, false);
    if Kept(before, false) {
      KeptKeepsParse(k, text, e);
    } else if Parse(k, Minify(text) + [NUL], true) == Parse(k, text + [NUL], true) {
      var e' := ReadsText(k, Minify(text) + [NUL]);
      var now := Bodies(e'.value);
      TextLiterals(k, Minify(text), e');
      LexicalValue(e');
      BodiesAreRead(k, e'.value, 0);
      SameValuesReread(now, before);
      SameStringsAreKept(text, false, now, before);
    }
  }

  // ----- a loss that goes unnoticed -----

  const ESCAPED_BACKSLASH: bytes := [BACKSLASH, BACKSLASH]
  const ZERO_AND_BLANK: bytes := [BACKSLASH, LOWER_U, 0x30, 0x30, 0x30, 0x30, SPACE]

  /** Behind U+0000 a blank goes unnoticed: this text keeps its value, although its second literal is not spared. */
  lemma NulHidesLoss(k: Codec)
    ensures var text := PutElement(Witness(ESCAPED_BACKSLASH, ZERO_AND_BLANK), []);
            NulFree(text) && Parse(k, text + [NUL], true).Done? &&
            Parse(k, Minify(text) + [NUL], true) == Parse(k, text + [NUL], true) &&
            Outside(text).Some? && !Spared(Outside(text).value, false)
  {
    hide PutElement, Minify, LexicalElement, Accepted, Denote, Bodies, Kept, Outside, Parse, Spared, Witness;
    var e := Witness(ESCAPED_BACKSLASH, ZERO_AND_BLANK);
    var text := PutElement(e, []);
    ZeroIsKept();
    WitnessIsRead(k);
    WitnessBytes();
    NulFreeHasOneNul(text);
    ElementThen(e, [], [NUL]);
    NoPrefix([NUL]);
    ParsesText(k, e);
    TextLiterals(k, text, e);
    KeptKeepsParse(k, text, e);
  }

  lemma WitnessIsRead(k: Codec)
    ensures var e := Witness(ESCAPED_BACKSLASH, ZERO_AND_BLANK);
            LexicalElement(e) && Accepted(k, e.value, 0) && Bodies(e.value) == [ESCAPED_BACKSLASH, ZERO_AND_BLANK]
  {
    hide ClosedBody, Unescape, AllRead, Kept, Spared, Bodies;
    ZeroIsKept();
    WitnessBodies();
    var bodies: seq<bytes> := [ESCAPED_BACKSLASH, ZERO_AND_BLANK];
    BothAreRead(bodies);
    var items := Witness(bodies[0], bodies[1]).value.items;
    assert items[1..] == [items[1]];
    OneItem(k, items[1..], 1);
    ConsItems(k, items, 1, []);
    ListFacts(k, [], items, 0);
  }

  lemma BothAreRead(bodies: seq<bytes>)
    requires AllRead(bodies) && |bodies| == 2
    ensures ClosedBody(bodies[0]) && ClosedBody(bodies[1])
    ensures Unescape(bodies[0], []).Done? && Unescape(bodies[1], []).Done?
  {
    hide ClosedBody, Unescape;
  }

  lemma WitnessBodies()
    ensures Bodies(Witness(ESCAPED_BACKSLASH, ZERO_AND_BLANK).value) == [ESCAPED_BACKSLASH, ZERO_AND_BLANK]
  {
    var items := Witness(ESCAPED_BACKSLASH, ZERO_AND_BLANK).value.items;
    var last := items[1..];
    assert last == [items[1]] && |last[1..]| == 0;
    assert Bodies(last[0].value) == [ZERO_AND_BLANK] && ItemBodies(last) == [ZERO_AND_BLANK];
    assert Bodies(items[0].value) == [ESCAPED_BACKSLASH];
  }

  lemma WitnessBytes()
    ensures NulFree(PutElement(Witness(ESCAPED_BACKSLASH, ZERO_AND_BLANK), []))
  {
    hide PutElement;
    WitnessText(ESCAPED_BACKSLASH, ZERO_AND_BLANK);
  }

  lemma ZeroIsKept()
    ensures var bodies := [ESCAPED_BACKSLASH, ZERO_AND_BLANK];
            AllRead(bodies) && Kept(bodies, false) && !Spared(bodies, false)
  {
    hide Survives, SparedBody, ClosedBody, Unescape;
    ZeroSurvives();
    var bodies: seq<bytes> := [ESCAPED_BACKSLASH, ZERO_AND_BLANK];
    var rest := bodies[1..];
    assert rest == [ZERO_AND_BLANK] && |rest[1..]| == 0;
    assert Kept(rest, true) && After(false, bodies[0]);
    assert ClosedBody(ESCAPED_BACKSLASH) && Unescape(ESCAPED_BACKSLASH, []).Done? by { BackslashIsRead(); }
  }

  lemma BackslashIsRead()
    ensures ClosedBody(ESCAPED_BACKSLASH) && Unescape(ESCAPED_BACKSLASH, []).Done?
  {
    var s := ESCAPED_BACKSLASH + [QUOTE];
    assert s[2..] == [QUOTE];
    ScanQuote();
    ScanEscape(s);
    assert ESCAPED_BACKSLASH[2..] == [];
  }

  lemma ZeroSurvives()
    ensures ClosedBody(ZERO_AND_BLANK) && Survives(ZERO_AND_BLANK) && !SparedBody(ZERO_AND_BLANK)
    ensures Unescape(ZERO_AND_BLANK, []).Done?
  {
    hide ScanLiteral, Unescape, CString, Minify;
    var zero := ZERO_AND_BLANK[..6];
    ZeroIsRead(zero, []);
    ZeroIsRead(zero, [SPACE]);
    NoPrefix(zero);
    assert zero + [SPACE] == ZERO_AND_BLANK;
    MinifyWord(zero, [SPACE]);
    BlankIsLost();
    ZeroWithin(zero, []);
    ZeroWithin(zero, [SPACE]);
    WithinScan(ZERO_AND_BLANK, []);
    NoPrefix([QUOTE]);
    assert FirstQuote(ZERO_AND_BLANK) == 7 && Droppable(ZERO_AND_BLANK[6]);
  }

  lemma BlankIsLost()
    ensures Minify([SPACE]) == []
  {
    assert [SPACE][1..] == [];
  }

  /** U+0000 and then a blank or nothing denote the empty C string. */
  lemma ZeroIsRead(zero: bytes, more: bytes)
    requires zero == ZERO_AND_BLANK[..6] && (more == [] || more == [SPACE])
    ensures Unescape(zero + more, []).Done? && CString(Unescape(zero + more, []).value) == []
  {
    var u := zero + more;
    assert u[2..6] == [0x30, 0x30, 0x30, 0x30] && u[6..] == more;
    assert Utf16Literal(u) == Some((0, 6));
    assert more == [SPACE] ==> more[1..] == [];
    UnescapeZero(more, []);
  }

  /** Bytes that are neither quotes nor backslashes, blanks or slashes change nothing. */
  lemma {:induction false} PlainWithin(w: bytes, more: bytes)
    requires forall i :: 0 <= i < |w| ==> w[i] != QUOTE && w[i] != BACKSLASH && !Droppable(w[i])
    ensures Within(w + more, false) == Within(more, false) && CommentsEnd(w + more) == CommentsEnd(more)
    ensures FirstQuote(w + more) == |w| + FirstQuote(more)
  {
    hide CommentsEnd;
    NoPrefix(more);
    if |w| > 0 {
      PlainWithin(w[1..], more);
      assert (w + more)[1..] == w[1..] + more;
      CommentsStep(w + more);
    }
  }

  lemma ZeroWithin(zero: bytes, more: bytes)
    requires zero == ZERO_AND_BLANK[..6] && (more == [] || more == [SPACE])
    ensures Within(zero + more, false) && CommentsEnd(zero + more) && FirstQuote(zero + more) == 6 + |more|
  {
    var u := zero + more;
    var digits := [0x30, 0x30, 0x30, 0x30];
    PlainWithin(digits, more);
    assert u[1..][1..] == digits + more;
    assert more == [SPACE] ==> more[1..] == [] && Dropped(more) == [];
  }
}
