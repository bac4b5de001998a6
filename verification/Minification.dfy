/** Minify on the texts of the language: it removes blanks and keeps the meaning. */
module Minification {
  import opened Bytes
  import opened Values
  import opened Parser
  import opened Syntax
  import opened Language
  import opened Recognition
  import opened Renderer
  import opened RoundTrip
  import opened Minifier

  // ----- pieces of text -----

  lemma {:induction false} MinifyBlanks(blanks: bytes, rest: bytes)
    requires Blank(blanks)
    ensures Minify(blanks + rest) == Squeeze(blanks) + Minify(rest)
  {
    if |blanks| == 0 {
      assert blanks + rest == rest;
      NoPrefix(Minify(rest));
    } else {
      assert (blanks + rest)[1..] == blanks[1..] + rest;
      MinifyBlanks(blanks[1..], rest);
      Nest([blanks[0]], Squeeze(blanks[1..]), Minify(rest));
    }
  }

  predicate Copied(b: byte) {
    !Removable(b) && b != SLASH && b != QUOTE
  }

  lemma MinifyByte(b: byte, rest: bytes)
    requires Copied(b)
    ensures Minify([b] + rest) == [b] + Minify(rest)
  {
    assert ([b] + rest)[1..] == rest;
  }

  lemma {:induction false} MinifyWord(word: bytes, rest: bytes)
    requires forall i :: 0 <= i < |word| ==> Copied(word[i])
    ensures Minify(word + rest) == word + Minify(rest)
  {
    if |word| == 0 {
      NoPrefix(rest);
      NoPrefix(Minify(rest));
    } else {
      HeadTail(word);
      MinifyWord(word[1..], rest);
      Nest([word[0]], word[1..], rest);
      Nest([word[0]], word[1..], Minify(rest));
      MinifyByte(word[0], word[1..] + rest);
    }
  }

  lemma MinifyLiteral(body: bytes, rest: bytes)
    requires ClosedBody(body) && !EndsInEscapedBackslash(body)
    ensures Minify(PutLiteral(body, rest)) == PutLiteral(body, Minify(rest))
  {
    LiteralRun(body, rest);
    var inner := body + ([QUOTE] + rest);
    var n := |body| + 1;
    assert PutLiteral(body, rest)[1..] == inner;
    assert inner[..n] == body + [QUOTE] && inner[n..] == rest;
    Nest(body, [QUOTE], Minify(rest));
  }

  // ----- trees -----

  lemma {:induction false} MinifyPut(v: Cst, rest: bytes)
    requires Lexical(v) && Clean(v)
    ensures Minify(Put(v, rest)) == Put(Strip(v), Minify(rest))
    decreases v
  {
    match v
    case NullWord => MinifyWord(NULL_TEXT, rest);
    case FalseWord => MinifyWord(FALSE_TEXT, rest);
    case TrueWord => MinifyWord(TRUE_TEXT, rest);
    case Numeral(lexeme) => MinifyWord(lexeme, rest);
    case Literal(body) => MinifyLiteral(body, rest);
    case List(pad, items) =>
      var end := [RBRACKET] + rest;
      MinifyByte(RBRACKET, rest);
      if |items| == 0 {
        MinifyBlanks(pad, end);
        MinifyByte(LBRACKET, pad + end);
      } else {
        MinifyItems(items, end);
        MinifyByte(LBRACKET, PutItems(items, end));
      }
    case Table(pad, entries) =>
      var end := [RBRACE] + rest;
      MinifyByte(RBRACE, rest);
      if |entries| == 0 {
        MinifyBlanks(pad, end);
        MinifyByte(LBRACE, pad + end);
      } else {
        MinifyEntries(entries, end);
        MinifyByte(LBRACE, PutEntries(entries, end));
      }
  }

  lemma {:induction false} MinifyElement(e: Element, rest: bytes)
    requires LexicalElement(e) && Clean(e.value)
    ensures Minify(PutElement(e, rest)) == PutElement(StripElement(e), Minify(rest))
    decreases e
  {
    MinifyBlanks(e.before, Put(e.value, e.after + rest));
    MinifyPut(e.value, e.after + rest);
    MinifyBlanks(e.after, rest);
  }

  lemma {:induction false} MinifyItems(items: seq<Element>, rest: bytes)
    requires |items| > 0 && LexicalItems(items) && CleanItems(items)
    ensures Minify(PutItems(items, rest)) == PutItems(StripItems(items), Minify(rest))
    decreases items
  {
    assert StripItems(items)[0] == StripElement(items[0]) && StripItems(items)[1..] == StripItems(items[1..]);
    if |items| == 1 {
      MinifyElement(items[0], rest);
    } else {
      MinifyItems(items[1..], rest);
      MinifyByte(COMMA, PutItems(items[1..], rest));
      MinifyElement(items[0], [COMMA] + PutItems(items[1..], rest));
    }
  }

  lemma {:induction false} MinifyEntry(e: Entry, rest: bytes)
    requires LexicalEntry(e) && CleanEntry(e)
    ensures Minify(PutEntry(e, rest)) == PutEntry(StripEntry(e), Minify(rest))
    decreases e
  {
    var value := PutElement(e.element, rest);
    MinifyElement(e.element, rest);
    MinifyByte(COLON, value);
    MinifyBlanks(e.between, [COLON] + value);
    MinifyLiteral(e.name, e.between + ([COLON] + value));
    MinifyBlanks(e.before, PutLiteral(e.name, e.between + ([COLON] + value)));
  }

  lemma {:induction false} MinifyEntries(entries: seq<Entry>, rest: bytes)
    requires |entries| > 0 && LexicalEntries(entries) && CleanEntries(entries)
    ensures Minify(PutEntries(entries, rest)) == PutEntries(StripEntries(entries), Minify(rest))
    decreases entries
  {
    assert StripEntries(entries)[0] == StripEntry(entries[0]) &&
      StripEntries(entries)[1..] == StripEntries(entries[1..]);
    if |entries| == 1 {
      MinifyEntry(entries[0], rest);
    } else {
      MinifyEntries(entries[1..], rest);
      MinifyByte(COMMA, PutEntries(entries[1..], rest));
      MinifyEntry(entries[0], [COMMA] + PutEntries(entries[1..], rest));
    }
  }

  // ----- stripping changes neither acceptance nor meaning -----

  lemma {:induction false} SqueezedBlank(blanks: bytes)
    requires Blank(blanks)
    ensures Blank(Squeeze(blanks))
  {
    if |blanks| > 0 {
      SqueezedBlank(blanks[1..]);
    }
  }

  lemma {:induction false} StripKeeps(k: Codec, v: Cst, d: nat)
    requires Lexical(v)
    ensures Lexical(Strip(v)) && (Accepted(k, Strip(v), d) <==> Accepted(k, v, d)) &&
            Denote(k, Strip(v)) == Denote(k, v)
    decreases v
  {
    match v
    case List(pad, items) =>
      SqueezedBlank(pad);
      StripKeepsItems(k, items, d + 1);
      ListFacts(k, pad, items, d);
      ListFacts(k, Squeeze(pad), StripItems(items), d);
    case Table(pad, entries) =>
      SqueezedBlank(pad);
      StripKeepsEntries(k, entries, d + 1);
      TableFacts(k, pad, entries, d);
      TableFacts(k, Squeeze(pad), StripEntries(entries), d);
    case _ =>
  }

  lemma {:induction false} StripKeepsElement(k: Codec, e: Element, d: nat)
    requires LexicalElement(e)
    ensures var t := StripElement(e);
            LexicalElement(t) && (Accepted(k, t.value, d) <==> Accepted(k, e.value, d)) &&
            Denote(k, t.value) == Denote(k, e.value)
    decreases e
  {
    SqueezedBlank(e.before);
    SqueezedBlank(e.after);
    StripKeeps(k, e.value, d);
  }

  lemma {:induction false} StripKeepsItems(k: Codec, items: seq<Element>, d: nat)
    requires LexicalItems(items)
    ensures var t := StripItems(items);
            LexicalItems(t) && (AcceptedItems(k, t, d) <==> AcceptedItems(k, items, d)) &&
            DenoteItems(k, t) == DenoteItems(k, items)
    decreases items
  {
    if |items| > 0 {
      StripKeepsElement(k, items[0], d);
      StripKeepsItems(k, items[1..], d);
      assert StripItems(items)[0] == StripElement(items[0]) && StripItems(items)[1..] == StripItems(items[1..]);
    }
  }

  lemma {:induction false} StripKeepsEntry(k: Codec, e: Entry, d: nat)
    requires LexicalEntry(e)
    ensures var t := StripEntry(e);
            LexicalEntry(t) && (AcceptedEntry(k, t, d) <==> AcceptedEntry(k, e, d)) &&
            EntryMember(k, t) == EntryMember(k, e)
    decreases e
  {
    SqueezedBlank(e.before);
    SqueezedBlank(e.between);
    StripKeepsElement(k, e.element, d);
  }

  lemma {:induction false} StripKeepsEntries(k: Codec, entries: seq<Entry>, d: nat)
    requires LexicalEntries(entries)
    ensures var t := StripEntries(entries);
            LexicalEntries(t) && (AcceptedEntries(k, t, d) <==> AcceptedEntries(k, entries, d)) &&
            DenoteEntries(k, t) == DenoteEntries(k, entries)
    decreases entries
  {
    if |entries| > 0 {
      StripKeepsEntry(k, entries[0], d);
      StripKeepsEntries(k, entries[1..], d);
      assert StripEntries(entries)[0] == StripEntry(entries[0]) &&
        StripEntries(entries)[1..] == StripEntries(entries[1..]);
    }
  }

  // ----- text with and without its terminator -----

  lemma {:induction false} PutThen(v: Cst, a: bytes, b: bytes)
    ensures Put(v, a) + b == Put(v, a + b)
    decreases v
  {
    match v
    case NullWord => Nest(NULL_TEXT, a, b);
    case FalseWord => Nest(FALSE_TEXT, a, b);
    case TrueWord => Nest(TRUE_TEXT, a, b);
    case Numeral(lexeme) => Nest(lexeme, a, b);
    case Literal(body) => LiteralThen(body, a, b);
    case List(pad, items) =>
      Nest([RBRACKET], a, b);
      if |items| == 0 {
        Nest3([LBRACKET], pad, [RBRACKET] + a, b);
      } else {
        ItemsThen(items, [RBRACKET] + a, b);
        Nest([LBRACKET], PutItems(items, [RBRACKET] + a), b);
      }
    case Table(pad, entries) =>
      Nest([RBRACE], a, b);
      if |entries| == 0 {
        Nest3([LBRACE], pad, [RBRACE] + a, b);
      } else {
        EntriesThen(entries, [RBRACE] + a, b);
        Nest([LBRACE], PutEntries(entries, [RBRACE] + a), b);
      }
  }

  lemma LiteralThen(body: bytes, a: bytes, b: bytes)
    ensures PutLiteral(body, a) + b == PutLiteral(body, a + b)
  {
    Nest4([QUOTE], body, [QUOTE], a, b);
  }

  lemma {:induction false} ElementThen(e: Element, a: bytes, b: bytes)
    ensures PutElement(e, a) + b == PutElement(e, a + b)
    decreases e
  {
    Nest(e.before, Put(e.value, e.after + a), b);
    PutThen(e.value, e.after + a, b);
    Nest(e.after, a, b);
  }

  lemma {:induction false} ItemsThen(items: seq<Element>, a: bytes, b: bytes)
    requires |items| > 0
    ensures PutItems(items, a) + b == PutItems(items, a + b)
    decreases items
  {
    if |items| == 1 {
      ElementThen(items[0], a, b);
    } else {
      ItemsThen(items[1..], a, b);
      Nest([COMMA], PutItems(items[1..], a), b);
      ElementThen(items[0], [COMMA] + PutItems(items[1..], a), b);
    }
  }

  lemma {:induction false} EntryThen(e: Entry, a: bytes, b: bytes)
    ensures PutEntry(e, a) + b == PutEntry(e, a + b)
    decreases e
  {
    var value := PutElement(e.element, a);
    ElementThen(e.element, a, b);
    Nest3(e.between, [COLON], value, b);
    LiteralThen(e.name, e.between + ([COLON] + value), b);
    Nest(e.before, PutLiteral(e.name, e.between + ([COLON] + value)), b);
  }

  lemma {:induction false} EntriesThen(entries: seq<Entry>, a: bytes, b: bytes)
    requires |entries| > 0
    ensures PutEntries(entries, a) + b == PutEntries(entries, a + b)
    decreases entries
  {
    if |entries| == 1 {
      EntryThen(entries[0], a, b);
    } else {
      EntriesThen(entries[1..], a, b);
      Nest([COMMA], PutEntries(entries[1..], a), b);
      EntryThen(entries[0], [COMMA] + PutEntries(entries[1..], a), b);
    }
  }

  // ----- main results -----

  /** On a lexical text without literals ending in an escaped backslash, minifying does not change the parse. */
  lemma MinifyKeepsParse(k: Codec, e: Element)
    requires LexicalElement(e) && Clean(e.value)
    ensures var s := PutElement(e, []);
            Terminated(s + [NUL]) && Terminated(Minify(s) + [NUL]) &&
            (Parse(k, s + [NUL], true).Done? || Parse(k, Minify(s) + [NUL], true).Done? ==>
             Parse(k, Minify(s) + [NUL], true) == Parse(k, s + [NUL], true))
  {
    ElementThen(e, [], [NUL]);
    ElementThen(StripElement(e), [], [NUL]);
    NoPrefix([NUL]);
    MinifyElement(e, []);
    StripKeepsElement(k, e, 0);
    ParsesText(k, e);
    ParsesText(k, StripElement(e));
  }

  lemma SameText(a: bytes, b: bytes)
    requires a + [NUL] == b + [NUL]
    ensures a == b
  {
    assert a == (a + [NUL])[..|a|] == b;
  }

  // ----- why the condition on literals is there -----

  /** The array of a literal and the string "a b" (or, minified wrongly, "ab"). */
  function Witness(body: bytes, second: bytes): Element {
    Element([], List([], [Element([], Literal(body), []), Element([], Literal(second), [])]), [])
  }

  const SPACED: bytes := [0x61, SPACE, 0x62]
  const JOINED: bytes := [0x61, 0x62]

  /**
   * Every literal that ends in an escaped backslash is a danger: followed by the string "a b" it
   * makes Minify drop that string's blank. A literal of any other kind leaves the text's meaning.
   */
  lemma UncleanLiteralsBreakMinify(k: Codec, body: bytes)
    requires ClosedBody(body) && Unescape(body, []).Done?
    ensures var s := PutElement(Witness(body, SPACED), []);
            Terminated(s + [NUL]) && Terminated(Minify(s) + [NUL]) && Parse(k, s + [NUL], true).Done? &&
            (Parse(k, Minify(s) + [NUL], true) == Parse(k, s + [NUL], true) <==> !EndsInEscapedBackslash(body))
  {
    var e := Witness(body, SPACED);
    WitnessParses(k, body, SPACED);
    WitnessParses(k, body, JOINED);
    if EndsInEscapedBackslash(body) {
      WitnessMinified(body);
    } else {
      WitnessClean(k, body);
      MinifyKeepsParse(k, e);
    }
  }

  lemma {:induction false} EscapePlain(s: bytes)
    requires forall i :: 0 <= i < |s| ==> s[i] >= SPACE && s[i] != QUOTE && s[i] != BACKSLASH
    ensures Escape(s) == s
  {
    if |s| > 0 {
      EscapePlain(s[1..]);
      HeadTail(s);
    }
  }

  lemma ShortLiteral(second: bytes)
    requires second == SPACED || second == JOINED
    ensures ClosedBody(second) && !EndsInEscapedBackslash(second) && Unescape(second, []).Done? &&
            LiteralValue(second) == second
  {
    EscapePlain(second);
    EscapeDenotes(second);
    EscapedEnd(second);
  }

  lemma WitnessItems(k: Codec, body: bytes, second: bytes)
    requires ClosedBody(body) && (second == SPACED || second == JOINED)
    ensures var items := Witness(body, second).value.items;
            LexicalItems(items) &&
            (AcceptedItems(k, items, 1) <==> Unescape(body, []).Done?) &&
            DenoteItems(k, items) == [String(Some(LiteralValue(body))), String(Some(second))]
  {
    ShortLiteral(second);
    var items := Witness(body, second).value.items;
    assert items[1..] == [items[1]];
    OneItem(k, items[1..], 1);
    ConsItems(k, items, 1, []);
  }

  lemma WitnessClean(k: Codec, body: bytes)
    requires ClosedBody(body) && !EndsInEscapedBackslash(body)
    ensures LexicalElement(Witness(body, SPACED)) && Clean(Witness(body, SPACED).value)
  {
    WitnessItems(k, body, SPACED);
    var items := Witness(body, SPACED).value.items;
    ListFacts(k, [], items, 0);
    ShortLiteral(SPACED);
    assert items[1..] == [items[1]];
    assert CleanItems(items[1..][1..]);
    assert CleanItems(items[1..]);
  }

  lemma WitnessParses(k: Codec, body: bytes, second: bytes)
    requires ClosedBody(body) && Unescape(body, []).Done? && (second == SPACED || second == JOINED)
    ensures var s := PutElement(Witness(body, second), []);
            Terminated(s + [NUL]) &&
            Parse(k, s + [NUL], true) == Done(Array([String(Some(LiteralValue(body))), String(Some(second))]), [NUL])
  {
    var e := Witness(body, second);
    WitnessAccepted(k, body, second);
    ParsesText(k, e);
    ElementThen(e, [], [NUL]);
    NoPrefix([NUL]);
  }

  lemma WitnessAccepted(k: Codec, body: bytes, second: bytes)
    requires ClosedBody(body) && Unescape(body, []).Done? && (second == SPACED || second == JOINED)
    ensures var e := Witness(body, second);
            LexicalElement(e) && Accepted(k, e.value, 0) &&
            Denote(k, e.value) == Array([String(Some(LiteralValue(body))), String(Some(second))])
  {
    WitnessItems(k, body, second);
    ListFacts(k, [], Witness(body, second).value.items, 0);
  }

  lemma WitnessText(body: bytes, second: bytes)
    ensures PutElement(Witness(body, second), []) ==
            [LBRACKET] + PutLiteral(body, [COMMA] + PutLiteral(second, [RBRACKET]))
  {
    var items := Witness(body, second).value.items;
    var end := [RBRACKET] + [];
    NoPrefix([RBRACKET]);
    NoPrefix(end);
    assert items[1..] == [items[1]];
    ItemText(items[1], end);
    ItemText(items[0], [COMMA] + PutItems(items[1..], end));
    ItemText(Witness(body, second), []);
  }

  lemma WitnessMinified(body: bytes)
    requires ClosedBody(body) && EndsInEscapedBackslash(body)
    ensures Minify(PutElement(Witness(body, SPACED), [])) == PutElement(Witness(body, JOINED), [])
  {
    hide QuotedRun, PutElement, EndsInEscapedBackslash;
    var rest := [COMMA] + PutLiteral(SPACED, [RBRACKET]);
    var inner := body + ([QUOTE] + rest);
    LiteralRun(body, rest);
    var tail := SPACED + ([QUOTE] + [RBRACKET]);
    assert rest == [COMMA] + ([QUOTE] + tail);
    RunOverPlain(COMMA, [QUOTE] + tail);
    RunAtQuote(tail);
    var n := |body| + 3;
    assert QuotedRun(inner) == n;
    assert inner[..n] == body + [QUOTE, COMMA, QUOTE] && inner[n..] == tail;
    MinifyTail();
    var s := PutLiteral(body, rest);
    assert s[1..] == inner;
    assert Minify(s) == [QUOTE] + ((body + [QUOTE, COMMA, QUOTE]) + (JOINED + [QUOTE, RBRACKET]));
    MinifyByte(LBRACKET, s);
    WitnessText(body, SPACED);
    WitnessText(body, JOINED);
    assert (body + [QUOTE, COMMA, QUOTE]) + (JOINED + [QUOTE, RBRACKET]) ==
      body + ([QUOTE] + ([COMMA] + PutLiteral(JOINED, [RBRACKET])));
  }

  lemma RunAtQuote(s: bytes)
    ensures QuotedRun([QUOTE] + s) == 1
  {
  }

  lemma MinifyTail()
    ensures Minify(SPACED + ([QUOTE] + [RBRACKET])) == JOINED + [QUOTE, RBRACKET]
  {
    var q := [QUOTE] + [RBRACKET];
    assert q[1..] == [RBRACKET];
    assert QuotedRun([RBRACKET]) == 1;
    assert Minify(q) == [QUOTE] + ([RBRACKET] + []);
    MinifyByte(0x62, q);
    assert ([SPACE] + ([0x62] + q))[1..] == [0x62] + q;
    MinifyByte(0x61, [SPACE] + ([0x62] + q));
    assert SPACED + q == [0x61] + ([SPACE] + ([0x62] + q));
  }

  // ----- how an escaped string ends -----

  lemma {:induction false} EscapedEnd(s: bytes)
    ensures EndsInEscapedBackslash(Escape(s)) <==> |s| > 0 && s[|s| - 1] == BACKSLASH
  {
    if |s| > 0 {
      EscapedEnd(s[1..]);
      EndBehindUnit(s[0], Escape(s[1..]));
      assert |s| > 1 ==> s[1..][|s| - 2] == s[|s| - 1];
      if |s| == 1 {
        NoPrefix(EscapeByte(s[0]));
      }
    }
  }

  lemma EndBehindUnit(b: byte, t: bytes)
    ensures EndsInEscapedBackslash(EscapeByte(b) + t) <==>
            if |t| == 0 then b == BACKSLASH else EndsInEscapedBackslash(t)
  {
    hide EscapeByte, Unit, EndsInEscapedBackslash;
    EscapeIsUnit(b);
    EscapedBackslash(b);
    UnitEnd(EscapeByte(b), t);
  }

  lemma EscapedBackslash(b: byte)
    ensures var e := EscapeByte(b);
            b == BACKSLASH <==> |e| == 2 && e[0] == BACKSLASH && e[1] == BACKSLASH
  {
  }

  lemma UnitEnd(e: bytes, t: bytes)
    requires Unit(e)
    ensures EndsInEscapedBackslash(e + t) <==>
            if |t| == 0 then |e| == 2 && e[0] == BACKSLASH && e[1] == BACKSLASH else EndsInEscapedBackslash(t)
  {
    hide Plain, EndsInEscapedBackslash;
    if e[0] != BACKSLASH {
      EndBehindPlain(e, t);
      NoEnd(t);
    } else {
      assert (e + t)[0] == BACKSLASH && (e + t)[2..] == e[2..] + t;
      EndBehindPlain(e[2..], t);
      NoEnd(t);
      EndBehindEscape(e + t);
    }
  }

  lemma NoEnd(t: bytes)
    ensures |t| == 0 ==> !EndsInEscapedBackslash(t)
  {
  }

  lemma EndBehindEscape(s: bytes)
    requires |s| >= 2 && s[0] == BACKSLASH
    ensures EndsInEscapedBackslash(s) <==> if |s| == 2 then s[1] == BACKSLASH else EndsInEscapedBackslash(s[2..])
  {
  }

  lemma {:induction false} EndBehindPlain(plain: bytes, t: bytes)
    requires Plain(plain)
    ensures EndsInEscapedBackslash(plain + t) == EndsInEscapedBackslash(t)
  {
    if |plain| == 0 {
      NoPrefix(t);
    } else {
      assert (plain + t)[1..] == plain[1..] + t;
      EndBehindPlain(plain[1..], t);
    }
  }
}
