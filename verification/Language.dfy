/**
 * parse_value against the grammar: on the text of any lexically ordered tree it returns what
 * the tree denotes exactly when the tree is accepted, and otherwise the parse fails.
 */
module Language {
  import opened Bytes
  import opened Values
  import opened Parser
  import opened Syntax

  /** The unread suffix does not continue a number. */
  predicate Follow(s: bytes) {
    Terminated(s) && !NumberByte(s[0])
  }

  /**
   * The parse of a value is lost: it stopped, or it ended inside a run of number bytes, where no
   * comma, bracket or end of text can follow.
   */
  predicate Lost<T>(o: Outcome<T>) {
    match o
    case Stop(_) => true
    case Done(_, rest) => |rest| > 0 && NumberByte(rest[0])
  }

  // ----- blanks -----

  lemma {:induction false} SkipBlanks(blanks: bytes, s: bytes)
    requires Blank(blanks) && Terminated(s)
    ensures Terminated(blanks + s)
    ensures SkipWhitespace(blanks + s) == SkipWhitespace(s)
  {
    TerminatedSuffix(blanks, s);
    if |blanks| == 0 {
      assert blanks + s == s;
    } else {
      assert (blanks + s)[1..] == blanks[1..] + s;
      SkipBlanks(blanks[1..], s);
    }
  }

  lemma SkipTo(blanks: bytes, s: bytes)
    requires Blank(blanks) && Terminated(s) && s[0] > SPACE
    ensures Terminated(blanks + s) && SkipWhitespace(blanks + s) == s
    ensures !NumberByte(s[0]) ==> Follow(blanks + s)
  {
    SkipBlanks(blanks, s);
  }

  // ----- numbers -----

  lemma {:induction false} RunOfText(lexeme: bytes, rest: bytes, limit: nat)
    requires Follow(rest)
    requires forall i :: 0 <= i < |lexeme| ==> NumberByte(lexeme[i])
    ensures NumberRun(lexeme + rest, limit) == if |lexeme| <= limit then |lexeme| else limit
  {
    if |lexeme| == 0 {
      assert lexeme + rest == rest;
    } else if limit > 0 {
      assert (lexeme + rest)[1..] == lexeme[1..] + rest;
      RunOfText(lexeme[1..], rest, limit - 1);
    }
  }

  lemma ParsesNumber(k: Codec, lexeme: bytes, rest: bytes)
    requires NumberText(lexeme) && Follow(rest)
    ensures Terminated(lexeme + rest)
    ensures var o := ParseNumber(k, lexeme + rest);
            if Accepted(k, Numeral(lexeme), 0) then o == Done(Number(k.strtod(lexeme).1), rest) else Lost(o)
  {
    TerminatedSuffix(lexeme, rest);
    RunOfText(lexeme, rest, NUMBER_BUFFER);
    var s := lexeme + rest;
    var n := NumberRun(s, NUMBER_BUFFER);
    assert s[..n] == lexeme[..n];
    var used := k.strtod(s[..n]).0;
    assert used <= n;
    if |lexeme| <= NUMBER_BUFFER {
      assert lexeme[..n] == lexeme;
    }
    if used == |lexeme| {
      assert s[used..] == rest;
    } else if used > 0 {
      assert s[used..][0] == lexeme[used];
    }
  }

  // ----- string literals -----

  lemma {:induction false} ScanStable(s: bytes, more: bytes)
    requires ScanLiteral(s).Some?
    ensures ScanLiteral(s + more) == ScanLiteral(s)
    decreases |s|
  {
    if s[0] == QUOTE {
    } else if s[0] == BACKSLASH {
      assert (s + more)[2..] == s[2..] + more;
      ScanStable(s[2..], more);
    } else {
      assert (s + more)[1..] == s[1..] + more;
      ScanStable(s[1..], more);
    }
  }

  lemma ScanQuote()
    ensures ScanLiteral([QUOTE]) == Some(0) == ScanLiteral([] + [QUOTE])
  {
    NoPrefix([QUOTE]);
  }

  predicate Plain(s: bytes) {
    |s| == 0 || (PlainByte(s[0]) && Plain(s[1..]))
  }

  predicate PlainByte(b: byte) {
    b != QUOTE && b != BACKSLASH
  }

  lemma PlainCons(b: byte, s: bytes)
    requires PlainByte(b) && Plain(s)
    ensures Plain([b] + s)
  {
    assert ([b] + s)[1..] == s;
  }

  lemma FourPlain(d0: byte, d1: byte, d2: byte, d3: byte)
    requires PlainByte(d0) && PlainByte(d1) && PlainByte(d2) && PlainByte(d3)
    ensures Plain([d0, d1, d2, d3])
  {
    PlainCons(d3, []);
    PlainCons(d2, [d3]);
    PlainCons(d1, [d2, d3]);
    PlainCons(d0, [d1, d2, d3]);
    assert [d0] + [d1, d2, d3] == [d0, d1, d2, d3];
    assert [d1] + [d2, d3] == [d1, d2, d3];
    assert [d2] + [d3] == [d2, d3];
    assert [d3] + [] == [d3];
  }

  lemma {:induction false} ScanPlain(plain: bytes, t: bytes)
    requires Plain(plain)
    requires ScanLiteral(t).Some?
    ensures ScanLiteral(plain + t) == Some(|plain| + ScanLiteral(t).value)
  {
    if |plain| == 0 {
      assert plain + t == t;
    } else {
      assert (plain + t)[1..] == plain[1..] + t;
      ScanPlain(plain[1..], t);
    }
  }

  /** One unit of a literal: a plain byte, or an escape whose third byte on are plain. */
  predicate Unit(e: bytes) {
    |e| > 0 && e[0] != QUOTE &&
    if e[0] == BACKSLASH then |e| >= 2 && Plain(e[2..]) else Plain(e)
  }

  lemma ScanEscape(s: bytes)
    requires |s| >= 2 && s[0] == BACKSLASH && ScanLiteral(s[2..]).Some?
    ensures ScanLiteral(s) == Some(2 + ScanLiteral(s[2..]).value)
  {
  }

  lemma UnitScans(e: bytes, t: bytes)
    requires Unit(e) && ScanLiteral(t).Some?
    ensures ScanLiteral(e + t) == Some(|e| + ScanLiteral(t).value)
  {
    hide ScanLiteral, Plain;
    if e[0] == BACKSLASH {
      var s := e + t;
      assert s[0] == BACKSLASH && s[2..] == e[2..] + t;
      ScanPlain(e[2..], t);
      ScanEscape(s);
    } else {
      ScanPlain(e, t);
    }
  }

  lemma LiteralParts(body: bytes, rest: bytes)
    requires |rest| > 0
    ensures var s := PutLiteral(body, rest);
            |s| == |body| + |rest| + 2 && s[0] == QUOTE && s[1..] == (body + [QUOTE]) + rest &&
            s[1..|body| + 1] == body && s[|body| + 2..] == rest && s[|s| - 1] == rest[|rest| - 1]
  {
  }

  lemma ParsesLiteral(body: bytes, rest: bytes)
    requires ClosedBody(body) && Terminated(rest)
    ensures Terminated(PutLiteral(body, rest))
    ensures var o := ParseString(PutLiteral(body, rest));
            match Unescape(body, [])
            case Done(out, _) => o == Done(out, rest)
            case Stop(left) => o == Stop(|rest| + 1 + left)
  {
    hide ScanLiteral, Unescape;
    LiteralParts(body, rest);
    ScanStable(body + [QUOTE], rest);
  }

  // ----- values -----

  lemma KeywordFirst(s: bytes)
    ensures StartsWith(s, NULL_TEXT) ==> s[0] == NULL_TEXT[0]
    ensures StartsWith(s, TRUE_TEXT) ==> s[0] == TRUE_TEXT[0]
    ensures StartsWith(s, FALSE_TEXT) ==> s[0] == FALSE_TEXT[0]
  {
    if StartsWith(s, NULL_TEXT) { assert s[..4][0] == s[0]; }
    if StartsWith(s, TRUE_TEXT) { assert s[..4][0] == s[0]; }
    if StartsWith(s, FALSE_TEXT) { assert s[..5][0] == s[0]; }
  }

  lemma ParsesWord(k: Codec, v: Cst, rest: bytes, d: nat)
    requires v.NullWord? || v.FalseWord? || v.TrueWord?
    requires Terminated(rest)
    ensures Terminated(Put(v, rest)) && ParseValue(k, Put(v, rest), d) == Done(Denote(k, v), rest)
  {
    var word := if v.NullWord? then NULL_TEXT else if v.FalseWord? then FALSE_TEXT else TRUE_TEXT;
    var s := Put(v, rest);
    TerminatedSuffix(word, rest);
    KeywordFirst(s);
    assert s[..|word|] == word && s[|word|..] == rest;
  }

  /** parse_value on anything but a word. */
  lemma ValueByFirstByte(k: Codec, s: bytes, d: nat)
    requires Terminated(s)
    ensures var o := ParseValue(k, s, d);
            if s[0] == QUOTE then
              var r := ParseString(s);
              o == if r.Done? then Done(String(Some(CString(r.value))), r.rest) else Stop(r.left)
            else if NumberStart(s[0]) then o == ParseNumber(k, s)
            else if s[0] == LBRACKET then o == ParseArray(k, s, d)
            else s[0] == LBRACE ==> o == ParseObject(k, s, d)
  {
    hide ParseString, ParseNumber, ParseArray, ParseObject;
    KeywordFirst(s);
  }

  lemma {:induction false} ParsesValue(k: Codec, v: Cst, rest: bytes, d: nat)
    requires Lexical(v) && Terminated(rest) && (v.Numeral? ==> Follow(rest))
    ensures Terminated(Put(v, rest))
    ensures var o := ParseValue(k, Put(v, rest), d);
            if Accepted(k, v, d) then o == Done(Denote(k, v), rest) else if v.Numeral? then Lost(o) else o.Stop?
    decreases v, 1
  {
    hide ParseValue, ParseNumber, ParseString, ParseArray, ParseObject, ClosedBody, Unescape;
    hide PutItems, PutEntries, LexicalItems, LexicalEntries, AcceptedItems, AcceptedEntries, DenoteItems, DenoteEntries;
    PutTerminated(v, rest);
    ValueByFirstByte(k, Put(v, rest), d);
    match v
    case Numeral(lexeme) => ParsesNumber(k, lexeme, rest);
    case Literal(body) => ParsesLiteral(body, rest);
    case List(pad, items) => ParsesList(k, v, rest, d);
    case Table(pad, entries) => ParsesTable(k, v, rest, d);
    case _ => ParsesWord(k, v, rest, d);
  }

  lemma {:induction false} ParsesList(k: Codec, v: Cst, rest: bytes, d: nat)
    requires v.List? && Lexical(v) && Terminated(rest)
    ensures var s := Put(v, rest);
            Terminated(s) && s[0] == LBRACKET &&
            var o := ParseArray(k, s, d);
            if Accepted(k, v, d) then o == Done(Denote(k, v), rest) else o.Stop?
    decreases v, 0
  {
    hide Put, PutItems, LexicalItems, AcceptedItems, DenoteItems, ParseItems, SkipWhitespace;
    var inner := [RBRACKET] + rest;
    PutList(v, rest);
    ListFacts(k, v.pad, v.items, d);
    if |v.items| == 0 {
      SkipTo(v.pad, inner);
      assert inner[1..] == rest;
      NoItems(k, v.items, d + 1);
    } else {
      ParsesItems(k, v.items, rest, d + 1, []);
      assert [] + DenoteItems(k, v.items) == DenoteItems(k, v.items);
    }
    ArraySteps(k, Put(v, rest), d);
  }

  lemma PutList(v: Cst, rest: bytes)
    requires v.List? && Terminated(rest)
    ensures var s, inner := Put(v, rest), [RBRACKET] + rest;
            Terminated(s) && s[0] == LBRACKET && |s| > 1 && Terminated(s[1..]) &&
            s[1..] == if |v.items| == 0 then v.pad + inner else PutItems(v.items, inner)
  {
    hide PutItems;
    PutTerminated(v, rest);
  }

  lemma NoItems(k: Codec, items: seq<Element>, d: nat)
    requires |items| == 0
    ensures AcceptedItems(k, items, d) && DenoteItems(k, items) == []
  {
  }

  /** parse_array up to its loop. */
  lemma ArraySteps(k: Codec, s: bytes, d: nat)
    requires Terminated(s) && s[0] == LBRACKET && |s| > 1
    ensures var t := SkipWhitespace(s[1..]);
            ParseArray(k, s, d) == if d >= NESTING_LIMIT then Stop(|s|)
                                   else if t[0] == RBRACKET then Done(Array([]), t[1..])
                                   else ParseItems(k, s[1..], d + 1, [])
  {
  }

  lemma {:induction false} ParsesTable(k: Codec, v: Cst, rest: bytes, d: nat)
    requires v.Table? && Lexical(v) && Terminated(rest)
    ensures var s := Put(v, rest);
            Terminated(s) && s[0] == LBRACE &&
            var o := ParseObject(k, s, d);
            if Accepted(k, v, d) then o == Done(Denote(k, v), rest) else o.Stop?
    decreases v, 0
  {
    hide Put, PutEntries, LexicalEntries, AcceptedEntries, DenoteEntries, ParseMembers, SkipWhitespace;
    var inner := [RBRACE] + rest;
    PutTable(v, rest);
    TableFacts(k, v.pad, v.entries, d);
    if |v.entries| == 0 {
      SkipTo(v.pad, inner);
      assert inner[1..] == rest;
      NoEntries(k, v.entries, d + 1);
    } else {
      ParsesEntries(k, v.entries, rest, d + 1, []);
      assert [] + DenoteEntries(k, v.entries) == DenoteEntries(k, v.entries);
    }
    ObjectSteps(k, Put(v, rest), d);
  }

  lemma PutTable(v: Cst, rest: bytes)
    requires v.Table? && Terminated(rest)
    ensures var s, inner := Put(v, rest), [RBRACE] + rest;
            Terminated(s) && s[0] == LBRACE && |s| > 1 && Terminated(s[1..]) &&
            s[1..] == if |v.entries| == 0 then v.pad + inner else PutEntries(v.entries, inner)
  {
    hide PutEntries;
    PutTerminated(v, rest);
  }

  lemma NoEntries(k: Codec, entries: seq<Entry>, d: nat)
    requires |entries| == 0
    ensures AcceptedEntries(k, entries, d) && DenoteEntries(k, entries) == []
  {
  }

  /** parse_object up to its loop. */
  lemma ObjectSteps(k: Codec, s: bytes, d: nat)
    requires Terminated(s) && s[0] == LBRACE && |s| > 1
    ensures var t := SkipWhitespace(s[1..]);
            ParseObject(k, s, d) == if d >= NESTING_LIMIT then Stop(|s|)
                                    else if t[0] == RBRACE then Done(Object([]), t[1..])
                                    else ParseMembers(k, s[1..], d + 1, [])
  {
  }

  /** An element in front of `tail`, which a separator or closing bracket starts. */
  lemma {:induction false} ParsesElement(k: Codec, e: Element, tail: bytes, d: nat)
    requires LexicalElement(e) && Terminated(tail) && tail[0] > SPACE && !NumberByte(tail[0])
    ensures Terminated(PutElement(e, tail))
    ensures var s := SkipWhitespace(PutElement(e, tail));
            var o := ParseValue(k, s, d);
            s[0] != RBRACKET &&
            if Accepted(k, e.value, d)
            then o.Done? && o.value == Denote(k, e.value) && SkipWhitespace(o.rest) == tail
            else Lost(o)
    decreases e, 0
  {
    SkipTo(e.after, tail);
    ParsesValue(k, e.value, e.after + tail, d);
    FirstByte(e.value, e.after + tail);
    SkipTo(e.before, Put(e.value, e.after + tail));
  }

  lemma {:induction false} ParsesItems(k: Codec, items: seq<Element>, rest: bytes, d: nat, acc: seq<Json>)
    requires |items| > 0 && LexicalItems(items) && Terminated(rest)
    ensures Terminated(PutItems(items, [RBRACKET] + rest))
    ensures var s := PutItems(items, [RBRACKET] + rest);
            var o := ParseItems(k, s, d, acc);
            SkipWhitespace(s)[0] != RBRACKET &&
            if AcceptedItems(k, items, d)
            then o == Done(Array(acc + DenoteItems(k, items)), rest) else o.Stop?
    decreases items, 0
  {
    hide PutItems, AcceptedItems, DenoteItems, LexicalItems, ParseItems, SkipWhitespace;
    FirstItem(k, items, [RBRACKET] + rest, d);
    PutItemsTerminated(items, [RBRACKET] + rest);
    if |items| == 1 {
      ParsesLastItem(k, items[0], rest, d, acc);
    } else {
      var more := PutItems(items[1..], [RBRACKET] + rest);
      var v := Denote(k, items[0].value);
      ParsesItems(k, items[1..], rest, d, acc + [v]);
      ParsesItemAndComma(k, items[0], more, d, acc);
      assert acc + [v] + DenoteItems(k, items[1..]) == acc + ([v] + DenoteItems(k, items[1..]));
    }
  }

  /** The first of the items. */
  lemma FirstItem(k: Codec, items: seq<Element>, end: bytes, d: nat)
    requires |items| > 0 && LexicalItems(items)
    ensures LexicalElement(items[0]) && LexicalItems(items[1..])
    ensures PutItems(items, end) ==
            PutElement(items[0], if |items| == 1 then end else [COMMA] + PutItems(items[1..], end))
    ensures AcceptedItems(k, items, d) <==>
            Accepted(k, items[0].value, d) && (|items| > 1 ==> AcceptedItems(k, items[1..], d))
    ensures DenoteItems(k, items) == [Denote(k, items[0].value)] + DenoteItems(k, items[1..])
    ensures |items| == 1 ==> DenoteItems(k, items) == [Denote(k, items[0].value)]
  {
    if |items| == 1 {
      assert items[1..] == [];
    }
  }

  lemma {:induction false} ParsesLastItem(k: Codec, e: Element, rest: bytes, d: nat, acc: seq<Json>)
    requires LexicalElement(e) && Terminated(rest) && Terminated(PutElement(e, [RBRACKET] + rest))
    ensures var s := PutElement(e, [RBRACKET] + rest);
            var o := ParseItems(k, s, d, acc);
            SkipWhitespace(s)[0] != RBRACKET &&
            if Accepted(k, e.value, d) then o == Done(Array(acc + [Denote(k, e.value)]), rest) else o.Stop?
    decreases e, 1
  {
    hide ParseItems, SkipWhitespace, ParseValue, PutElement, LexicalElement, Accepted, Denote;
    var tail := [RBRACKET] + rest;
    ParsesElement(k, e, tail, d);
    if Accepted(k, e.value, d) {
      ItemsStep(k, PutElement(e, tail), tail, d, acc);
      assert tail[1..] == rest;
    } else {
      LostInItems(k, PutElement(e, tail), d, acc);
    }
  }

  lemma {:induction false} ParsesItemAndComma(k: Codec, e: Element, more: bytes, d: nat, acc: seq<Json>)
    requires LexicalElement(e) && Terminated(more) && Terminated(PutElement(e, [COMMA] + more))
    ensures var s := PutElement(e, [COMMA] + more);
            var o := ParseItems(k, s, d, acc);
            SkipWhitespace(s)[0] != RBRACKET &&
            if Accepted(k, e.value, d) then o == ParseItems(k, more, d, acc + [Denote(k, e.value)]) else o.Stop?
    decreases e, 1
  {
    hide ParseItems, SkipWhitespace, ParseValue, PutElement, LexicalElement, Accepted, Denote;
    var tail := [COMMA] + more;
    ParsesElement(k, e, tail, d);
    if Accepted(k, e.value, d) {
      ItemsStep(k, PutElement(e, tail), tail, d, acc);
      assert tail[1..] == more;
    } else {
      LostInItems(k, PutElement(e, tail), d, acc);
    }
  }

  /** One round of the loop of parse_array, up to the separator at `tail`. */
  lemma ItemsStep(k: Codec, s: bytes, tail: bytes, d: nat, acc: seq<Json>)
    requires Terminated(s) && Terminated(tail)
    requires var o := ParseValue(k, SkipWhitespace(s), d); o.Done? && SkipWhitespace(o.rest) == tail
    ensures var v := ParseValue(k, SkipWhitespace(s), d).value;
            (tail[0] == COMMA && |tail| > 1 ==> ParseItems(k, s, d, acc) == ParseItems(k, tail[1..], d, acc + [v])) &&
            (tail[0] == RBRACKET ==> ParseItems(k, s, d, acc) == Done(Array(acc + [v]), tail[1..]))
  {
  }

  lemma LostInItems(k: Codec, s: bytes, d: nat, acc: seq<Json>)
    requires Terminated(s) && Lost(ParseValue(k, SkipWhitespace(s), d))
    ensures ParseItems(k, s, d, acc).Stop?
  {
  }

  lemma {:induction false} ParsesEntry(k: Codec, e: Entry, tail: bytes, d: nat)
    requires LexicalEntry(e) && Terminated(tail) && tail[0] > SPACE && !NumberByte(tail[0])
    ensures Terminated(PutEntry(e, tail)) && SkipWhitespace(PutEntry(e, tail))[0] == QUOTE
    ensures var o := ParseMember(k, PutEntry(e, tail), d);
            if AcceptedEntry(k, e, d)
            then o.Done? && o.value == EntryMember(k, e) && SkipWhitespace(o.rest) == tail
            else Lost(o)
    decreases e, 0
  {
    hide ParseMember, SkipWhitespace, ParseString, ParseValue, PutElement, LexicalElement, Accepted, Denote,
        ScanLiteral, Unescape;
    ParsesElement(k, e.element, tail, d);
    var inner := PutElement(e.element, tail);
    var s2 := [COLON] + inner;
    TerminatedSuffix([COLON], inner);
    assert s2[1..] == inner;
    SkipTo(e.between, s2);
    ParsesLiteral(e.name, e.between + s2);
    SkipTo(e.before, PutLiteral(e.name, e.between + s2));
    MemberSteps(k, PutEntry(e, tail), e.between + s2, s2, d);
  }

  /** parse_object's path through one member whose name has been dealt with. */
  lemma MemberSteps(k: Codec, s: bytes, afterName: bytes, atColon: bytes, d: nat)
    requires Terminated(s) && Terminated(afterName) && Terminated(atColon)
    requires SkipWhitespace(afterName) == atColon && atColon[0] == COLON && |atColon| > 1
    ensures var name := ParseString(SkipWhitespace(s));
            name.Stop? ==> ParseMember(k, s, d).Stop?
    ensures var name := ParseString(SkipWhitespace(s));
            name.Done? && name.rest == afterName ==>
              var o := ParseValue(k, SkipWhitespace(atColon[1..]), d);
              ParseMember(k, s, d) ==
              (match o case Stop(left) => Stop(left)
              case Done(v, rest) => Done(Member(Some(CString(name.value)), v), rest))
  {
  }

  lemma {:induction false} ParsesEntries(k: Codec, entries: seq<Entry>, rest: bytes, d: nat, acc: seq<Member>)
    requires |entries| > 0 && LexicalEntries(entries) && Terminated(rest)
    ensures Terminated(PutEntries(entries, [RBRACE] + rest))
    ensures var s := PutEntries(entries, [RBRACE] + rest);
            var o := ParseMembers(k, s, d, acc);
            SkipWhitespace(s)[0] == QUOTE &&
            if AcceptedEntries(k, entries, d)
            then o == Done(Object(acc + DenoteEntries(k, entries)), rest) else o.Stop?
    decreases entries, 0
  {
    hide PutEntry, AcceptedEntry, ParseMembers, SkipWhitespace, LexicalEntry;
    var e := entries[0];
    PutEntriesTerminated(entries, [RBRACE] + rest);
    if |entries| == 1 {
      ParsesLastEntry(k, e, rest, d, acc);
      OneEntry(k, entries, d);
    } else {
      ParsesEntries(k, entries[1..], rest, d, acc + [EntryMember(k, e)]);
      ParsesEntryAndComma(k, e, PutEntries(entries[1..], [RBRACE] + rest), d, acc);
      ConsEntries(k, entries, acc);
    }
  }

  lemma OneEntry(k: Codec, entries: seq<Entry>, d: nat)
    requires |entries| == 1
    ensures AcceptedEntries(k, entries, d) == AcceptedEntry(k, entries[0], d)
    ensures LexicalEntries(entries) == LexicalEntry(entries[0])
    ensures DenoteEntries(k, entries) == [EntryMember(k, entries[0])]
  {
    assert AcceptedEntries(k, entries[1..], d) && LexicalEntries(entries[1..]);
  }

  lemma ConsEntries(k: Codec, entries: seq<Entry>, acc: seq<Member>)
    requires |entries| > 1
    ensures acc + [EntryMember(k, entries[0])] + DenoteEntries(k, entries[1..]) == acc + DenoteEntries(k, entries)
  {
  }

  lemma {:induction false} ParsesLastEntry(k: Codec, e: Entry, rest: bytes, d: nat, acc: seq<Member>)
    requires LexicalEntry(e) && Terminated(rest)
    ensures var s := PutEntry(e, [RBRACE] + rest);
            Terminated(s) && SkipWhitespace(s)[0] == QUOTE &&
            var o := ParseMembers(k, s, d, acc);
            if AcceptedEntry(k, e, d) then o == Done(Object(acc + [EntryMember(k, e)]), rest) else o.Stop?
    decreases e, 1
  {
    hide ParseMembers, SkipWhitespace, ParseMember, PutEntry, LexicalEntry, AcceptedEntry, EntryMember;
    var tail := [RBRACE] + rest;
    TerminatedSuffix([RBRACE], rest);
    ParsesEntry(k, e, tail, d);
    if AcceptedEntry(k, e, d) {
      MembersStep(k, PutEntry(e, tail), tail, d, acc);
      assert tail[1..] == rest;
    } else {
      LostInMembers(k, PutEntry(e, tail), d, acc);
    }
  }

  lemma {:induction false} ParsesEntryAndComma(k: Codec, e: Entry, more: bytes, d: nat, acc: seq<Member>)
    requires LexicalEntry(e) && Terminated(more)
    ensures var s := PutEntry(e, [COMMA] + more);
            Terminated(s) && SkipWhitespace(s)[0] == QUOTE &&
            var o := ParseMembers(k, s, d, acc);
            if AcceptedEntry(k, e, d) then o == ParseMembers(k, more, d, acc + [EntryMember(k, e)]) else o.Stop?
    decreases e, 1
  {
    hide ParseMembers, SkipWhitespace, ParseMember, PutEntry, LexicalEntry, AcceptedEntry, EntryMember;
    var tail := [COMMA] + more;
    TerminatedSuffix([COMMA], more);
    ParsesEntry(k, e, tail, d);
    if AcceptedEntry(k, e, d) {
      MembersStep(k, PutEntry(e, tail), tail, d, acc);
      assert tail[1..] == more;
    } else {
      LostInMembers(k, PutEntry(e, tail), d, acc);
    }
  }

  /** One round of the loop of parse_object, up to the separator at `tail`. */
  lemma MembersStep(k: Codec, s: bytes, tail: bytes, d: nat, acc: seq<Member>)
    requires Terminated(s) && Terminated(tail) && ParseMember(k, s, d).Done?
    requires SkipWhitespace(ParseMember(k, s, d).rest) == tail
    ensures tail[0] == COMMA && |tail| > 1 ==>
            ParseMembers(k, s, d, acc) == ParseMembers(k, tail[1..], d, acc + [ParseMember(k, s, d).value])
    ensures tail[0] == RBRACE ==>
            ParseMembers(k, s, d, acc) == Done(Object(acc + [ParseMember(k, s, d).value]), tail[1..])
  {
  }

  lemma LostInMembers(k: Codec, s: bytes, d: nat, acc: seq<Member>)
    requires Terminated(s) && Lost(ParseMember(k, s, d))
    ensures ParseMembers(k, s, d, acc).Stop?
  {
  }
}
