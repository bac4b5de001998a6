/**
 * The converse of module Language: whatever the parser accepts is the text of an accepted tree,
 * so cJSON_ParseWithOpts with require_null_terminated recognises exactly that language.
 */
module Recognition {
  import opened Bytes
  import opened Values
  import opened Parser
  import opened Syntax
  import opened Language

  /** A C string in memory: one NUL, at the end. */
  predicate OneNul(s: bytes) {
    Terminated(s) && NulFree(s[..|s| - 1])
  }

  lemma OneNulAt(s: bytes, i: nat)
    requires OneNul(s) && i < |s|
    ensures s[i] == NUL <==> i == |s| - 1
  {
    assert i < |s| - 1 ==> s[..|s| - 1][i] == s[i];
  }

  lemma OneNulSuffix(s: bytes, i: nat)
    requires OneNul(s) && i < |s|
    ensures OneNul(s[i..])
  {
    NulFreeSlice(s, i, |s| - 1);
    assert s[i..][..|s| - i - 1] == s[i..|s| - 1];
  }

  lemma NulFreeSlice(s: bytes, i: nat, j: nat)
    requires OneNul(s) && i <= j < |s|
    ensures NulFree(s[i..j])
  {
    forall n | 0 <= n < |s[i..j]| ensures s[i..j][n] != NUL {
      OneNulAt(s, i + n);
    }
  }

  // ----- the whole text -----

  lemma NoMark(e: Element)
    requires LexicalElement(e)
    ensures !StartsWith(PutElement(e, [NUL]), BYTE_ORDER_MARK)
  {
    var s := PutElement(e, [NUL]);
    if |e.before| == 0 {
      assert s == Put(e.value, e.after + [NUL]);
    }
    assert s[0] < 0x80;
    MarkFirst(s);
  }

  lemma MarkFirst(s: bytes)
    ensures StartsWith(s, BYTE_ORDER_MARK) ==> s[0] == 0xEF
  {
    assert StartsWith(s, BYTE_ORDER_MARK) ==> s[..3][0] == s[0];
  }

  lemma SkipsMark(s: bytes)
    requires Terminated(s) && |s| >= 2 && !StartsWith(s, BYTE_ORDER_MARK)
    ensures Terminated(BYTE_ORDER_MARK + s) && SkipMark(BYTE_ORDER_MARK + s) == s == SkipMark(s)
  {
    var marked := BYTE_ORDER_MARK + s;
    assert marked[..3] == BYTE_ORDER_MARK && marked[3..] == s;
  }

  lemma ParsesText(k: Codec, e: Element)
    requires LexicalElement(e)
    ensures var s := PutElement(e, [NUL]);
            Terminated(s) && Terminated(BYTE_ORDER_MARK + s) &&
            Parse(k, BYTE_ORDER_MARK + s, true) == Parse(k, s, true) &&
            if Accepted(k, e.value, 0) then Parse(k, s, true) == Done(Denote(k, e.value), [NUL])
            else Parse(k, s, true).Stop?
  {
    ParsesWhole(k, e);
    NoMark(e);
    SkipsMark(PutElement(e, [NUL]));
    ParseSteps(k, PutElement(e, [NUL]));
  }

  lemma ParsesWhole(k: Codec, e: Element)
    requires LexicalElement(e)
    ensures Terminated(PutElement(e, [NUL])) && |PutElement(e, [NUL])| >= 2
    ensures var o := ParseValue(k, SkipWhitespace(PutElement(e, [NUL])), 0);
            if Accepted(k, e.value, 0)
            then o.Done? && o.value == Denote(k, e.value) && SkipWhitespace(o.rest) == [NUL]
            else Lost(o)
  {
    var tail := e.after + [NUL];
    SkipBlanks(e.after, [NUL]);
    assert Follow(tail);
    ParsesValue(k, e.value, tail, 0);
    FirstByte(e.value, tail);
    SkipTo(e.before, Put(e.value, tail));
  }

  lemma ParseSteps(k: Codec, s: bytes)
    requires Terminated(s)
    ensures var o := ParseValue(k, SkipWhitespace(SkipMark(s)), 0);
            match o
            case Stop(_) => Parse(k, s, true).Stop?
            case Done(v, rest) =>
              var t := SkipWhitespace(rest);
              (t[0] == NUL ==> Parse(k, s, true) == Done(v, t)) && (t[0] != NUL ==> Parse(k, s, true).Stop?)
  {
  }

  // ----- from the parse back to a tree -----

  lemma {:induction false} SkipSplits(s: bytes) returns (blanks: bytes)
    requires OneNul(s)
    ensures Blank(blanks) && s == blanks + SkipWhitespace(s) && OneNul(SkipWhitespace(s))
  {
    if s[0] <= SPACE && |s| > 1 {
      OneNulAt(s, 0);
      OneNulSuffix(s, 1);
      var more := SkipSplits(s[1..]);
      blanks := [s[0]] + more;
      assert s == [s[0]] + s[1..];
    } else {
      blanks := [];
    }
  }

  lemma {:induction false} ScanPrefix(s: bytes)
    requires ScanLiteral(s).Some?
    ensures ScanLiteral(s[..ScanLiteral(s).value] + [QUOTE]) == ScanLiteral(s)
    decreases |s|
  {
    var n := ScanLiteral(s).value;
    var t := s[..n] + [QUOTE];
    if s[0] == QUOTE {
    } else if s[0] == BACKSLASH {
      ScanPrefix(s[2..]);
      assert t[2..] == s[2..][..n - 2] + [QUOTE];
    } else {
      ScanPrefix(s[1..]);
      assert t[1..] == s[1..][..n - 1] + [QUOTE];
    }
  }

  lemma ReadsLiteral(s: bytes) returns (body: bytes)
    requires OneNul(s) && ParseString(s).Done?
    ensures ClosedBody(body) && Unescape(body, []).Done? && Unescape(body, []).value == ParseString(s).value
    ensures s == PutLiteral(body, ParseString(s).rest) && OneNul(ParseString(s).rest)
  {
    var n := ScanLiteral(s[1..]).value;
    body := s[1..n + 1];
    assert body == s[1..][..n];
    ScanPrefix(s[1..]);
    ParseStringAdvances(s);
    NulFreeSlice(s, 1, n + 1);
    OneNulSuffix(s, n + 2);
    assert s[n + 1] == s[1..][n];
    SplitLiteral(s, n);
  }

  lemma SplitLiteral(s: bytes, n: nat)
    requires n + 1 < |s| && s[0] == QUOTE == s[n + 1]
    ensures s == PutLiteral(s[1..n + 1], s[n + 2..])
  {
  }

  lemma ReadsNumber(k: Codec, s: bytes) returns (lexeme: bytes)
    requires OneNul(s) && NumberStart(s[0]) && ParseNumber(k, s).Done? && Follow(ParseNumber(k, s).rest)
    ensures NumberText(lexeme) && Accepted(k, Numeral(lexeme), 0)
    ensures s == lexeme + ParseNumber(k, s).rest && OneNul(ParseNumber(k, s).rest)
    ensures ParseNumber(k, s).value == Number(k.strtod(lexeme).1)
  {
    var n := NumberRun(s, NUMBER_BUFFER);
    lexeme := s[..n];
    var used := k.strtod(lexeme).0;
    assert used <= n;
    NumberAdvances(k, s);
    OneNulSuffix(s, used);
    assert s[used..][0] == s[used];
    assert used == n;
  }

  lemma ReadsWord(s: bytes, word: bytes)
    requires OneNul(s) && StartsWith(s, word) && 0 < |word| && word[|word| - 1] != NUL
    ensures s == word + s[|word|..] && |word| < |s| && OneNul(s[|word|..])
  {
    assert s[|word| - 1] == word[|word| - 1];
    OneNulSuffix(s, |word|);
  }

  lemma {:induction false} ReadsValue(k: Codec, s: bytes, d: nat) returns (v: Cst)
    requires OneNul(s) && ParseValue(k, s, d).Done?
    requires NumberStart(s[0]) ==> Follow(ParseValue(k, s, d).rest)
    ensures var o := ParseValue(k, s, d);
            Lexical(v) && Accepted(k, v, d) && s == Put(v, o.rest) && o.value == Denote(k, v) && OneNul(o.rest)
    decreases |s|, 2
  {
    if StartsWith(s, NULL_TEXT) {
      ReadsWord(s, NULL_TEXT);
      v := NullWord;
    } else if StartsWith(s, FALSE_TEXT) {
      ReadsWord(s, FALSE_TEXT);
      v := FalseWord;
    } else if StartsWith(s, TRUE_TEXT) {
      ReadsWord(s, TRUE_TEXT);
      v := TrueWord;
    } else if s[0] == QUOTE {
      var body := ReadsLiteral(s);
      v := Literal(body);
    } else if NumberStart(s[0]) {
      var lexeme := ReadsNumber(k, s);
      v := Numeral(lexeme);
    } else if s[0] == LBRACKET {
      v := ReadsArray(k, s, d);
    } else {
      v := ReadsObject(k, s, d);
    }
  }

  lemma {:induction false} ReadsArray(k: Codec, s: bytes, d: nat) returns (v: Cst)
    requires OneNul(s) && s[0] == LBRACKET && ParseArray(k, s, d).Done?
    ensures var o := ParseArray(k, s, d);
            Lexical(v) && Accepted(k, v, d) && s == Put(v, o.rest) && o.value == Denote(k, v) && OneNul(o.rest)
    decreases |s|, 1
  {
    hide PutItems, AcceptedItems, LexicalItems, DenoteItems, ParseItems, SkipWhitespace;
    OneNulSuffix(s, 1);
    HeadTail(s);
    var t := SkipWhitespace(s[1..]);
    if t[0] == RBRACKET {
      var pad := SkipSplits(s[1..]);
      OneNulSuffix(t, 1);
      v := EmptyList(k, pad, t, d);
    } else {
      var items := ReadsItems(k, s[1..], d + 1, []);
      v := List([], items);
      assert [] + DenoteItems(k, items) == DenoteItems(k, items);
    }
  }

  lemma EmptyList(k: Codec, pad: bytes, t: bytes, d: nat) returns (v: Cst)
    requires Blank(pad) && |t| > 0 && t[0] == RBRACKET && d < NESTING_LIMIT
    ensures Lexical(v) && Accepted(k, v, d) && Denote(k, v) == Array([]) && Put(v, t[1..]) == [LBRACKET] + (pad + t)
  {
    v := List(pad, []);
    assert t == [RBRACKET] + t[1..];
    assert AcceptedItems(k, [], d + 1);
  }

  lemma {:induction false} ReadsElement(k: Codec, s: bytes, d: nat) returns (e: Element)
    requires OneNul(s) && ParseValue(k, SkipWhitespace(s), d).Done?
    requires var t := SkipWhitespace(ParseValue(k, SkipWhitespace(s), d).rest); !NumberByte(t[0])
    ensures var o := ParseValue(k, SkipWhitespace(s), d);
            var t := SkipWhitespace(o.rest);
            LexicalElement(e) && Accepted(k, e.value, d) && s == PutElement(e, t) && o.value == Denote(k, e.value) &&
            OneNul(t)
    decreases |s|, 3
  {
    var o := ParseValue(k, SkipWhitespace(s), d);
    var before := SkipSplits(s);
    var v := ReadsValue(k, SkipWhitespace(s), d);
    var after := SkipSplits(o.rest);
    e := Element(before, v, after);
  }

  lemma {:induction false} ReadsItems(k: Codec, s: bytes, d: nat, acc: seq<Json>) returns (items: seq<Element>)
    requires OneNul(s) && ParseItems(k, s, d, acc).Done?
    ensures var o := ParseItems(k, s, d, acc);
            |items| > 0 && LexicalItems(items) && AcceptedItems(k, items, d) && OneNul(o.rest) &&
            s == PutItems(items, [RBRACKET] + o.rest) && o.value == Array(acc + DenoteItems(k, items))
    decreases |s|, 4
  {
    var v := ParseValue(k, SkipWhitespace(s), d);
    var t := SkipWhitespace(v.rest);
    var e := ReadsElement(k, s, d);
    OneNulSuffix(t, 1);
    if t[0] == COMMA {
      var more := ReadsItems(k, t[1..], d, acc + [v.value]);
      items := [e] + more;
      assert items[1..] == more;
      ConsItems(k, items, d, acc);
      HeadTail(t);
    } else {
      items := [e];
      OneItem(k, items, d);
      HeadTail(t);
    }
  }

  lemma ConsItems(k: Codec, items: seq<Element>, d: nat, acc: seq<Json>)
    requires |items| > 1
    ensures acc + [Denote(k, items[0].value)] + DenoteItems(k, items[1..]) == acc + DenoteItems(k, items)
    ensures AcceptedItems(k, items, d) == (Accepted(k, items[0].value, d) && AcceptedItems(k, items[1..], d))
    ensures LexicalItems(items) == (LexicalElement(items[0]) && LexicalItems(items[1..]))
  {
  }

  lemma OneItem(k: Codec, items: seq<Element>, d: nat)
    requires |items| == 1
    ensures AcceptedItems(k, items, d) == Accepted(k, items[0].value, d)
    ensures LexicalItems(items) == LexicalElement(items[0])
    ensures DenoteItems(k, items) == [Denote(k, items[0].value)]
  {
    assert AcceptedItems(k, items[1..], d) && LexicalItems(items[1..]);
  }

  lemma {:induction false} ReadsObject(k: Codec, s: bytes, d: nat) returns (v: Cst)
    requires OneNul(s) && s[0] == LBRACE && ParseObject(k, s, d).Done?
    ensures var o := ParseObject(k, s, d);
            Lexical(v) && Accepted(k, v, d) && s == Put(v, o.rest) && o.value == Denote(k, v) && OneNul(o.rest)
    decreases |s|, 1
  {
    OneNulSuffix(s, 1);
    HeadTail(s);
    var t := SkipWhitespace(s[1..]);
    if t[0] == RBRACE {
      var pad := SkipSplits(s[1..]);
      OneNulSuffix(t, 1);
      v := EmptyTable(k, pad, t, d);
    } else {
      v := ReadsFullObject(k, s, d);
    }
  }

  lemma {:induction false} ReadsFullObject(k: Codec, s: bytes, d: nat) returns (v: Cst)
    requires OneNul(s) && |s| > 1 && d < NESTING_LIMIT && ParseMembers(k, s[1..], d + 1, []).Done?
    requires s == [LBRACE] + s[1..] && OneNul(s[1..])
    ensures var o := ParseMembers(k, s[1..], d + 1, []);
            Lexical(v) && Accepted(k, v, d) && s == Put(v, o.rest) && o.value == Denote(k, v) && OneNul(o.rest)
    decreases |s|, 0
  {
    hide PutEntries, AcceptedEntries, LexicalEntries, DenoteEntries, ParseMembers;
    var entries := ReadsMembers(k, s[1..], d + 1, []);
    v := Table([], entries);
    TableFacts(k, [], entries, d);
    assert [] + DenoteEntries(k, entries) == DenoteEntries(k, entries);
  }

  lemma EmptyTable(k: Codec, pad: bytes, t: bytes, d: nat) returns (v: Cst)
    requires Blank(pad) && |t| > 0 && t[0] == RBRACE && d < NESTING_LIMIT
    ensures Lexical(v) && Accepted(k, v, d) && Denote(k, v) == Object([]) && Put(v, t[1..]) == [LBRACE] + (pad + t)
  {
    v := Table(pad, []);
    TableFacts(k, pad, [], d);
    assert t == [RBRACE] + t[1..];
    assert LexicalEntries([]);
  }

  lemma {:induction false} ReadsMember(k: Codec, s: bytes, d: nat) returns (e: Entry)
    requires OneNul(s) && ParseMember(k, s, d).Done?
    requires var t := SkipWhitespace(ParseMember(k, s, d).rest); !NumberByte(t[0])
    ensures var o := ParseMember(k, s, d);
            var t := SkipWhitespace(o.rest);
            LexicalEntry(e) && AcceptedEntry(k, e, d) && s == PutEntry(e, t) && o.value == EntryMember(k, e) &&
            OneNul(t)
    decreases |s|, 3
  {
    MemberParts(k, s, d);
    var before := SkipSplits(s);
    var s1 := SkipWhitespace(s);
    var name := ReadsLiteral(s1);
    var between := SkipSplits(ParseString(s1).rest);
    var s2 := SkipWhitespace(ParseString(s1).rest);
    OneNulSuffix(s2, 1);
    HeadTail(s2);
    var element := ReadsElement(k, s2[1..], d);
    e := Entry(before, name, between, element);
  }

  /** What a completed parse of a member went through. */
  lemma MemberParts(k: Codec, s: bytes, d: nat)
    requires Terminated(s) && ParseMember(k, s, d).Done?
    ensures var name := ParseString(SkipWhitespace(s));
            name.Done? && Terminated(name.rest) && |name.rest| < |s| &&
            var s2 := SkipWhitespace(name.rest);
            |s2| > 1 && s2[0] == COLON &&
            var o := ParseValue(k, SkipWhitespace(s2[1..]), d);
            o.Done? && ParseMember(k, s, d) == Done(Member(Some(CString(name.value)), o.value), o.rest)
  {
    ParseStringAdvances(SkipWhitespace(s));
  }

  lemma {:induction false} ReadsMembers(k: Codec, s: bytes, d: nat, acc: seq<Member>) returns (entries: seq<Entry>)
    requires OneNul(s) && ParseMembers(k, s, d, acc).Done?
    ensures var o := ParseMembers(k, s, d, acc);
            |entries| > 0 && LexicalEntries(entries) && AcceptedEntries(k, entries, d) && OneNul(o.rest) &&
            s == PutEntries(entries, [RBRACE] + o.rest) && o.value == Object(acc + DenoteEntries(k, entries))
    decreases |s|, 4
  {
    var m := ParseMember(k, s, d);
    var t := SkipWhitespace(m.rest);
    var e := ReadsMember(k, s, d);
    OneNulSuffix(t, 1);
    if t[0] == COMMA {
      var more := ReadsMembers(k, t[1..], d, acc + [m.value]);
      entries := [e] + more;
      assert entries[1..] == more;
      ConsEntries(k, entries, acc);
      HeadTail(t);
    } else {
      entries := [e];
      OneEntry(k, entries, d);
      HeadTail(t);
    }
  }

  // ----- the language -----

  /** `s` holds the tree `e`, perhaps behind a byte order mark. */
  predicate TextOf(s: bytes, e: Element) {
    LexicalElement(e) && (s == PutElement(e, [NUL]) || s == BYTE_ORDER_MARK + PutElement(e, [NUL]))
  }

  lemma ReadsText(k: Codec, s: bytes) returns (e: Element)
    requires OneNul(s) && Parse(k, s, true).Done?
    ensures TextOf(s, e) && Accepted(k, e.value, 0) && Parse(k, s, true) == Done(Denote(k, e.value), [NUL])
  {
    var t := SkipMark(s);
    if t != s {
      OneNulSuffix(s, 3);
      assert s == BYTE_ORDER_MARK + t;
    }
    var o := ParseValue(k, SkipWhitespace(t), 0);
    var u := SkipWhitespace(o.rest);
    e := ReadsElement(k, t, 0);
    OneNulAt(u, 0);
    assert u == [NUL];
  }

  /** cJSON_ParseWithOpts(…, require_null_terminated) recognises exactly the accepted trees' texts. */
  lemma LanguageTheorem(k: Codec, s: bytes)
    requires OneNul(s)
    ensures Parse(k, s, true).Done? <==> exists e :: TextOf(s, e) && Accepted(k, e.value, 0)
    ensures forall e :: TextOf(s, e) && Accepted(k, e.value, 0) ==> Parse(k, s, true) == Done(Denote(k, e.value), [NUL])
  {
    forall e | TextOf(s, e) && Accepted(k, e.value, 0)
      ensures Parse(k, s, true) == Done(Denote(k, e.value), [NUL])
    {
      ParsesText(k, e);
    }
    if Parse(k, s, true).Done? {
      var e := ReadsText(k, s);
    }
  }
}
