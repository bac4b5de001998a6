/**
 * Where a text that is refused stops being one: the position that cJSON_ParseWithOpts reports. It
 * is told by the tree that has been read up to there and by what stands there instead of what can
 * follow.
 */
module ErrorPositions {
  import opened Bytes
  import opened Values
  import opened Parser
  import opened Syntax
  import opened Language
  import opened Recognition
  import opened Prefixes

  // ----- unfinished trees -----

  /**
   * A value that is broken off: nothing of it, or an open array or object. An open array is broken
   * off inside of its next element (`OpenItem`) or behind an element (`ItemEnd`); an open object
   * inside of the value of its next member, behind a member, or in front of a key or colon.
   */
  datatype Unfinished =
    | Nothing
    | OpenItem(done: seq<Element>, before: bytes, inner: Unfinished)
    | ItemEnd(done: seq<Element>, last: Element)
    | OpenEntry(entries: seq<Entry>, before: bytes, name: bytes, between: bytes, gap: bytes, inner: Unfinished)
    | EntryEnd(entries: seq<Entry>, member: Entry)
    | KeyMissing(entries: seq<Entry>, before: bytes)
    | ColonMissing(entries: seq<Entry>, before: bytes, name: bytes, between: bytes)

  /** Finished elements and the commas behind them. */
  function PutDone(done: seq<Element>, rest: bytes): bytes {
    if |done| == 0 then rest else PutItems(done, [COMMA] + rest)
  }

  function PutMembers(entries: seq<Entry>, rest: bytes): bytes {
    if |entries| == 0 then rest else PutEntries(entries, [COMMA] + rest)
  }

  /** The text of an unfinished tree, with `t` where it is broken off. */
  function PutUnfinished(u: Unfinished, t: bytes): bytes
    decreases u
  {
    match u
    case Nothing => t
    case OpenItem(done, before, inner) => [LBRACKET] + PutDone(done, before + PutUnfinished(inner, t))
    case ItemEnd(done, last) => [LBRACKET] + PutDone(done, PutElement(last, t))
    case OpenEntry(entries, before, name, between, gap, inner) =>
      [LBRACE] +
      PutMembers(entries, before + PutLiteral(name, between + ([COLON] + (gap + PutUnfinished(inner, t)))))
    case EntryEnd(entries, member) => [LBRACE] + PutMembers(entries, PutEntry(member, t))
    case KeyMissing(entries, before) => [LBRACE] + PutMembers(entries, before + t)
    case ColonMissing(entries, before, name, between) =>
      [LBRACE] + PutMembers(entries, before + PutLiteral(name, between + t))
  }

  predicate ReadableLiteral(body: bytes) {
    ClosedBody(body) && Unescape(body, []).Done?
  }

  /** What is finished in it is in order at depth `d`. */
  predicate InOrder(k: Codec, u: Unfinished, d: nat)
    decreases u
  {
    match u
    case Nothing => true
    case OpenItem(done, before, inner) =>
      d < NESTING_LIMIT && LexicalItems(done) && AcceptedItems(k, done, d + 1) && Blank(before) &&
      InOrder(k, inner, d + 1)
    case ItemEnd(done, _) => d < NESTING_LIMIT && LexicalItems(done) && AcceptedItems(k, done, d + 1)
    case OpenEntry(entries, before, name, between, gap, inner) =>
      d < NESTING_LIMIT && LexicalEntries(entries) && AcceptedEntries(k, entries, d + 1) && Blank(before) &&
      ReadableLiteral(name) && Blank(between) && Blank(gap) && InOrder(k, inner, d + 1)
    case EntryEnd(entries, _) => d < NESTING_LIMIT && LexicalEntries(entries) && AcceptedEntries(k, entries, d + 1)
    case KeyMissing(entries, before) =>
      d < NESTING_LIMIT && LexicalEntries(entries) && AcceptedEntries(k, entries, d + 1) && Blank(before)
    case ColonMissing(entries, before, name, between) =>
      d < NESTING_LIMIT && LexicalEntries(entries) && AcceptedEntries(k, entries, d + 1) && Blank(before) &&
      ReadableLiteral(name) && Blank(between)
  }

  // ----- what stands where it is broken off -----

  /** No blank is left to skip. */
  predicate AtToken(t: bytes) {
    Terminated(t) && (t[0] > SPACE || |t| == 1)
  }

  /** A literal without its closing quote, reported behind its opening one, or with an escape that is none. */
  ghost predicate BrokenLiteral(t: bytes, left: nat) {
    |t| > 0 && t[0] == QUOTE &&
    if ScanLiteral(t[1..]) == None then left == |t| - 1
    else
      exists body, rest :: ClosedBody(body) && Terminated(rest) && t == PutLiteral(body, rest) &&
        Unescape(body, []).Stop? && left == |rest| + 1 + Unescape(body, []).left
  }

  predicate StartsNumber(c: char) { c == '-' || '0' <= c <= '9' }

  /** No word, and no byte that a number, literal, array or object starts with. */
  predicate NoValue(t: bytes) {
    |t| > 0 && !StartsNumber(t[0] as char) && t[0] as char != '\"' && t[0] as char != '[' && t[0] as char != '{' &&
    !StartsWith(t, NULL_TEXT) && !StartsWith(t, TRUE_TEXT) && !StartsWith(t, FALSE_TEXT)
  }

  /** Where a value should stand, `t` stands instead, and `left` bytes of it are behind the error. */
  ghost predicate BrokenValue(k: Codec, t: bytes, d: nat, left: nat) {
    AtToken(t) &&
    (BrokenLiteral(t, left) ||
     (left == |t| &&
      (NoValue(t) ||
       ((t[0] == LBRACKET || t[0] == LBRACE) && d >= NESTING_LIMIT) ||
       (StartsNumber(t[0] as char) && k.strtod(Seen(t)).0 == 0))))
  }

  /** A finished element or member in front of `t`; a number may have been left by strtod where it goes on. */
  predicate ElementBefore(k: Codec, e: Element, t: bytes, d: nat) {
    Blank(e.before) && Blank(e.after) && Terminated(t) && Heads(k, e.value, e.after + t, d)
  }

  predicate EntryBefore(k: Codec, e: Entry, t: bytes, d: nat) {
    Blank(e.before) && ReadableLiteral(e.name) && Blank(e.between) && ElementBefore(k, e.element, t, d)
  }

  /** `t` cannot stand where `u` is broken off. */
  ghost predicate Broken(k: Codec, u: Unfinished, t: bytes, d: nat, left: nat)
    decreases u
  {
    match u
    case Nothing => BrokenValue(k, t, d, left)
    case OpenItem(done, _, inner) =>
      Broken(k, inner, t, d + 1, left) && (|done| == 0 && inner.Nothing? ==> t[0] != RBRACKET)
    case ItemEnd(_, last) =>
      AtToken(t) && t[0] != COMMA && t[0] != RBRACKET && left == |t| && ElementBefore(k, last, t, d + 1)
    case OpenEntry(_, _, _, _, _, inner) => Broken(k, inner, t, d + 1, left)
    case EntryEnd(_, member) =>
      AtToken(t) && t[0] != COMMA && t[0] != RBRACE && left == |t| && EntryBefore(k, member, t, d + 1)
    case KeyMissing(entries, _) =>
      AtToken(t) && (|entries| == 0 ==> t[0] != RBRACE) &&
      (BrokenLiteral(t, left) || (t[0] != QUOTE && left == |t| - 1))
    case ColonMissing(_, _, _, _) => AtToken(t) && t[0] != COLON && left == |t|
  }

  // ----- literals -----

  lemma BrokenLiteralStops(t: bytes, left: nat)
    requires Terminated(t) && BrokenLiteral(t, left)
    ensures ParseString(t) == Stop(left)
  {
    hide ScanLiteral, Unescape, ClosedBody;
    if ScanLiteral(t[1..]).Some? {
      var body, rest :| ClosedBody(body) && Terminated(rest) && t == PutLiteral(body, rest) &&
        Unescape(body, []).Stop? && left == |rest| + 1 + Unescape(body, []).left;
      ParsesLiteral(body, rest);
    }
  }

  /** Where unescaping stops there is an escape that is none, and everything in front of it is in order. */
  lemma {:induction false} StopsAtNoEscape(body: bytes, out: bytes)
    requires Unescape(body, out).Stop?
    ensures var left := Unescape(body, out).left;
            2 <= left <= |body| && body[|body| - left] == BACKSLASH &&
            var b := body[|body| - left..];
            if b[1] == LOWER_U then Utf16Literal(b) == None else b[1] as char !in "\"\\/bfnrt"
    decreases |body|
  {
    if body[0] != BACKSLASH {
      StopsAtNoEscape(body[1..], out + [body[0]]);
    } else {
      var letter := if |body| > 1 then body[1] else QUOTE;
      if letter == LOWER_U {
        if Utf16Literal(body).Some? {
          var (cp, used) := Utf16Literal(body).value;
          StopsAtNoEscape(body[used..], out + Utf8(cp));
        }
      } else if ShortEscape(letter).Some? {
        StopsAtNoEscape(body[2..], out + [ShortEscape(letter).value]);
      }
    }
  }

  // ----- values -----

  lemma BrokenValueStops(k: Codec, t: bytes, d: nat, left: nat)
    requires BrokenValue(k, t, d, left)
    ensures ParseValue(k, t, d) == Stop(left)
  {
    hide BrokenLiteral, ParseValue, ParseString, ParseArray, ParseObject;
    if BrokenLiteral(t, left) {
      BrokenLiteralStops(t, left);
      assert t[0] == QUOTE by { LiteralStarts(t, left); }
      ValueByFirstByte(k, t, d);
    } else if NoValue(t) {
      NoValueStops(k, t, d);
    } else {
      ValueByFirstByte(k, t, d);
      if d >= NESTING_LIMIT {
        BracketStops(k, t, d);
      }
    }
  }

  lemma LiteralStarts(t: bytes, left: nat)
    requires BrokenLiteral(t, left)
    ensures t[0] == QUOTE
  {
  }

  lemma NoValueStops(k: Codec, t: bytes, d: nat)
    requires Terminated(t) && NoValue(t)
    ensures ParseValue(k, t, d) == Stop(|t|)
  {
    hide ParseString, ParseArray, ParseObject, ParseNumber;
  }

  lemma BracketStops(k: Codec, t: bytes, d: nat)
    requires Terminated(t) && d >= NESTING_LIMIT
    ensures t[0] == LBRACKET ==> ParseArray(k, t, d) == Stop(|t|)
    ensures t[0] == LBRACE ==> ParseObject(k, t, d) == Stop(|t|)
  {
  }

  // ----- blanks and elements in front of the place -----

  lemma SkipToToken(blanks: bytes, t: bytes)
    requires Blank(blanks) && AtToken(t)
    ensures Terminated(blanks + t) && SkipWhitespace(blanks + t) == t
  {
    SkipBlanks(blanks, t);
  }

  lemma ElementInFront(k: Codec, e: Element, t: bytes, d: nat)
    requires ElementBefore(k, e, t, d) && AtToken(t)
    ensures Terminated(PutElement(e, t))
    ensures var s := SkipWhitespace(PutElement(e, t));
            var o := ParseValue(k, s, d);
            s[0] != RBRACKET && o == Done(HeadValue(k, e.value, e.after + t), e.after + t) &&
            SkipWhitespace(o.rest) == t
  {
    hide ParseValue, Put, Heads, SkipWhitespace;
    var tail := e.after + t;
    SkipToToken(e.after, t);
    ParsesHead(k, e.value, tail, d);
    FirstOfHead(k, e.value, tail, d);
    NoBracket(k, e.value, tail, d);
    SkipTo(e.before, Put(e.value, tail));
  }

  lemma NoBracket(k: Codec, v: Cst, rest: bytes, d: nat)
    requires Heads(k, v, rest, d)
    ensures |Put(v, rest)| > 0 && Put(v, rest)[0] != RBRACKET
  {
  }

  // ----- arrays -----

  lemma ItemsSteps(k: Codec, s: bytes, d: nat, acc: seq<Json>)
    requires Terminated(s)
    ensures var o := ParseValue(k, SkipWhitespace(s), d);
            if o.Stop? then ParseItems(k, s, d, acc) == o
            else
              var t := SkipWhitespace(o.rest);
              (t[0] == COMMA && |t| > 1 ==> ParseItems(k, s, d, acc) == ParseItems(k, t[1..], d, acc + [o.value])) &&
              (t[0] == RBRACKET ==> ParseItems(k, s, d, acc).Done?) &&
              (t[0] != COMMA && t[0] != RBRACKET ==> ParseItems(k, s, d, acc) == Stop(|t|))
  {
  }

  /** Finished elements with the commas behind them. */
  lemma {:induction false} ItemsThrough(k: Codec, done: seq<Element>, r: bytes, d: nat, acc: seq<Json>)
    requires |done| > 0 && LexicalItems(done) && AcceptedItems(k, done, d) && Terminated(r)
    ensures var s := PutItems(done, [COMMA] + r);
            Terminated(s) && SkipWhitespace(s)[0] != RBRACKET &&
            ParseItems(k, s, d, acc) == ParseItems(k, r, d, acc + DenoteItems(k, done))
    decreases |done|
  {
    hide PutItems, AcceptedItems, DenoteItems, LexicalItems, ParseItems, SkipWhitespace;
    FirstItem(k, done, [COMMA] + r, d);
    PutItemsTerminated(done, [COMMA] + r);
    var v := Denote(k, done[0].value);
    if |done| == 1 {
      ParsesItemAndComma(k, done[0], r, d, acc);
    } else {
      var more := PutItems(done[1..], [COMMA] + r);
      ItemsThrough(k, done[1..], r, d, acc + [v]);
      ParsesItemAndComma(k, done[0], more, d, acc);
      assert acc + [v] + DenoteItems(k, done[1..]) == acc + ([v] + DenoteItems(k, done[1..]));
    }
  }

  /** An array that is broken off, given what its loop makes of the inside. */
  lemma ArrayStops(k: Codec, inside: bytes, d: nat, left: nat)
    requires Terminated(inside) && d < NESTING_LIMIT && SkipWhitespace(inside)[0] != RBRACKET
    requires ParseItems(k, inside, d + 1, []) == Stop(left)
    ensures var s := [LBRACKET] + inside;
            Terminated(s) && ParseValue(k, s, d) == Stop(left)
  {
    hide ParseValue, ParseArray, ParseItems, SkipWhitespace;
    var s := [LBRACKET] + inside;
    assert s[1..] == inside;
    ValueByFirstByte(k, s, d);
    ArraySteps(k, s, d);
  }

  /** What is broken behind finished elements. */
  lemma DoneThenStops(k: Codec, done: seq<Element>, r: bytes, d: nat, left: nat)
    requires d < NESTING_LIMIT && LexicalItems(done) && AcceptedItems(k, done, d + 1)
    requires Terminated(r) && (|done| == 0 ==> SkipWhitespace(r)[0] != RBRACKET)
    requires ParseItems(k, r, d + 1, DenoteItems(k, done)) == Stop(left)
    ensures var s := [LBRACKET] + PutDone(done, r);
            Terminated(s) && ParseValue(k, s, d) == Stop(left)
  {
    hide ParseValue, ParseItems, PutItems, SkipWhitespace;
    if |done| > 0 {
      ItemsThrough(k, done, r, d + 1, []);
      assert [] + DenoteItems(k, done) == DenoteItems(k, done);
    }
    ArrayStops(k, PutDone(done, r), d, left);
  }

  /** Its next element is broken. */
  lemma OpenItemStops(k: Codec, done: seq<Element>, before: bytes, value: bytes, d: nat, left: nat)
    requires d < NESTING_LIMIT && LexicalItems(done) && AcceptedItems(k, done, d + 1) && Blank(before)
    requires AtToken(value) && (|done| == 0 ==> value[0] != RBRACKET) && ParseValue(k, value, d + 1) == Stop(left)
    ensures var s := [LBRACKET] + PutDone(done, before + value);
            Terminated(s) && ParseValue(k, s, d) == Stop(left)
  {
    hide ParseValue, ParseItems, PutItems, SkipWhitespace;
    SkipToToken(before, value);
    ItemsSteps(k, before + value, d + 1, DenoteItems(k, done));
    DoneThenStops(k, done, before + value, d, left);
  }

  /** Behind an element something else than a comma or the closing bracket. */
  lemma ItemEndStops(k: Codec, done: seq<Element>, last: Element, t: bytes, d: nat)
    requires d < NESTING_LIMIT && LexicalItems(done) && AcceptedItems(k, done, d + 1)
    requires ElementBefore(k, last, t, d + 1) && AtToken(t) && t[0] != COMMA && t[0] != RBRACKET
    ensures var s := [LBRACKET] + PutDone(done, PutElement(last, t));
            Terminated(s) && ParseValue(k, s, d) == Stop(|t|)
  {
    hide ParseValue, ParseItems, PutItems, SkipWhitespace, PutElement, ElementBefore;
    ElementInFront(k, last, t, d + 1);
    ItemsSteps(k, PutElement(last, t), d + 1, DenoteItems(k, done));
    DoneThenStops(k, done, PutElement(last, t), d, |t|);
  }

  // ----- objects -----

  lemma MembersSteps(k: Codec, s: bytes, d: nat, acc: seq<Member>)
    requires Terminated(s)
    ensures var o := ParseMember(k, s, d);
            if o.Stop? then ParseMembers(k, s, d, acc) == Stop(o.left)
            else
              var t := SkipWhitespace(o.rest);
              (t[0] == COMMA && |t| > 1 ==>
                ParseMembers(k, s, d, acc) == ParseMembers(k, t[1..], d, acc + [o.value])) &&
              (t[0] == RBRACE ==> ParseMembers(k, s, d, acc).Done?) &&
              (t[0] != COMMA && t[0] != RBRACE ==> ParseMembers(k, s, d, acc) == Stop(|t|))
  {
  }

  lemma {:induction false} MembersThrough(k: Codec, entries: seq<Entry>, r: bytes, d: nat, acc: seq<Member>)
    requires |entries| > 0 && LexicalEntries(entries) && AcceptedEntries(k, entries, d) && Terminated(r)
    ensures var s := PutEntries(entries, [COMMA] + r);
            Terminated(s) && SkipWhitespace(s)[0] == QUOTE &&
            ParseMembers(k, s, d, acc) == ParseMembers(k, r, d, acc + DenoteEntries(k, entries))
    decreases |entries|
  {
    hide PutEntry, AcceptedEntry, ParseMembers, SkipWhitespace, LexicalEntry, EntryMember;
    var e := entries[0];
    PutEntriesTerminated(entries, [COMMA] + r);
    if |entries| == 1 {
      OneEntry(k, entries, d);
      ParsesEntryAndComma(k, e, r, d, acc);
    } else {
      MembersThrough(k, entries[1..], r, d, acc + [EntryMember(k, e)]);
      ParsesEntryAndComma(k, e, PutEntries(entries[1..], [COMMA] + r), d, acc);
      ConsEntries(k, entries, acc);
    }
  }

  /** A finished member. */
  lemma EntryInFront(k: Codec, e: Entry, t: bytes, d: nat)
    requires EntryBefore(k, e, t, d) && AtToken(t)
    ensures Terminated(PutEntry(e, t)) && SkipWhitespace(PutEntry(e, t))[0] == QUOTE
    ensures var o := ParseMember(k, PutEntry(e, t), d);
            o.Done? && SkipWhitespace(o.rest) == t
  {
    hide ParseMember, SkipWhitespace, ParseString, ParseValue, PutElement, ElementBefore, ReadableLiteral;
    ElementInFront(k, e.element, t, d);
    var inner := PutElement(e.element, t);
    var colon := [COLON] + inner;
    TerminatedSuffix([COLON], inner);
    assert colon[1..] == inner;
    SkipTo(e.between, colon);
    AfterKey(k, e.before, e.name, e.between + colon, d);
    MemberSteps(k, PutEntry(e, t), e.between + colon, colon, d);
  }

  lemma ObjectStops(k: Codec, inside: bytes, d: nat, left: nat)
    requires Terminated(inside) && d < NESTING_LIMIT && SkipWhitespace(inside)[0] != RBRACE
    requires ParseMembers(k, inside, d + 1, []) == Stop(left)
    ensures var s := [LBRACE] + inside;
            Terminated(s) && ParseValue(k, s, d) == Stop(left)
  {
    hide ParseValue, ParseObject, ParseMembers, SkipWhitespace;
    var s := [LBRACE] + inside;
    assert s[1..] == inside;
    ValueByFirstByte(k, s, d);
    ObjectSteps(k, s, d);
  }

  /** Its next member is broken. */
  lemma OpenEntryStops(k: Codec, entries: seq<Entry>, member: bytes, d: nat, left: nat)
    requires d < NESTING_LIMIT && LexicalEntries(entries) && AcceptedEntries(k, entries, d + 1)
    requires Terminated(member) && (|entries| == 0 ==> SkipWhitespace(member)[0] != RBRACE)
    requires ParseMember(k, member, d + 1) == Stop(left)
    ensures var s := [LBRACE] + PutMembers(entries, member);
            Terminated(s) && ParseValue(k, s, d) == Stop(left)
  {
    hide ParseValue, ParseMembers, ParseMember, PutEntries, SkipWhitespace;
    if |entries| == 0 {
      MembersSteps(k, member, d + 1, []);
    } else {
      MembersThrough(k, entries, member, d + 1, []);
      MembersSteps(k, member, d + 1, [] + DenoteEntries(k, entries));
    }
    ObjectStops(k, PutMembers(entries, member), d, left);
  }

  lemma EntryEndStops(k: Codec, entries: seq<Entry>, member: Entry, t: bytes, d: nat)
    requires d < NESTING_LIMIT && LexicalEntries(entries) && AcceptedEntries(k, entries, d + 1)
    requires EntryBefore(k, member, t, d + 1) && AtToken(t) && t[0] != COMMA && t[0] != RBRACE
    ensures var s := [LBRACE] + PutMembers(entries, PutEntry(member, t));
            Terminated(s) && ParseValue(k, s, d) == Stop(|t|)
  {
    hide ParseValue, ParseMembers, ParseMember, PutEntries, SkipWhitespace, PutEntry, EntryBefore;
    var r := PutEntry(member, t);
    EntryInFront(k, member, t, d + 1);
    if |entries| == 0 {
      MembersSteps(k, r, d + 1, []);
    } else {
      MembersThrough(k, entries, r, d + 1, []);
      MembersSteps(k, r, d + 1, [] + DenoteEntries(k, entries));
    }
    ObjectStops(k, PutMembers(entries, r), d, |t|);
  }

  /** A member without a key, without a colon, and with a broken value. */
  lemma KeyStops(k: Codec, before: bytes, t: bytes, d: nat, left: nat)
    requires Blank(before) && AtToken(t) && (BrokenLiteral(t, left) || (t[0] != QUOTE && left == |t| - 1))
    ensures Terminated(before + t) && SkipWhitespace(before + t) == t && ParseMember(k, before + t, d) == Stop(left)
  {
    hide ParseValue, SkipWhitespace, BrokenLiteral, ParseString;
    SkipToToken(before, t);
    if BrokenLiteral(t, left) {
      BrokenLiteralStops(t, left);
    } else {
      NoQuoteStops(t);
    }
  }

  lemma NoQuoteStops(t: bytes)
    requires Terminated(t) && t[0] != QUOTE
    ensures ParseString(t) == Stop(|t| - 1)
  {
  }

  lemma AfterKey(k: Codec, before: bytes, name: bytes, after: bytes, d: nat)
    requires Blank(before) && ReadableLiteral(name) && Terminated(after)
    ensures var s := before + PutLiteral(name, after);
            Terminated(s) && SkipWhitespace(s)[0] == QUOTE &&
            ParseString(SkipWhitespace(s)) == Done(Unescape(name, []).value, after)
  {
    hide SkipWhitespace, ParseString, ScanLiteral, Unescape;
    ParsesLiteral(name, after);
    SkipTo(before, PutLiteral(name, after));
  }

  lemma ColonStops(k: Codec, before: bytes, name: bytes, between: bytes, t: bytes, d: nat)
    requires Blank(before) && ReadableLiteral(name) && Blank(between) && AtToken(t) && t[0] != COLON
    ensures var s := before + PutLiteral(name, between + t);
            Terminated(s) && SkipWhitespace(s)[0] == QUOTE && ParseMember(k, s, d) == Stop(|t|)
  {
    hide SkipWhitespace, ParseString, ReadableLiteral, PutLiteral, ParseValue;
    SkipToToken(between, t);
    AfterKey(k, before, name, between + t, d);
  }

  lemma MemberValueStops(k: Codec, before: bytes, name: bytes, between: bytes, gap: bytes, value: bytes, d: nat,
      left: nat)
    requires Blank(before) && ReadableLiteral(name) && Blank(between) && Blank(gap)
    requires AtToken(value) && ParseValue(k, value, d) == Stop(left)
    ensures var s := before + PutLiteral(name, between + ([COLON] + (gap + value)));
            Terminated(s) && SkipWhitespace(s)[0] == QUOTE && ParseMember(k, s, d) == Stop(left)
  {
    hide SkipWhitespace, ParseString, ReadableLiteral, PutLiteral, ParseValue, ParseMember;
    SkipToToken(gap, value);
    var colon := [COLON] + (gap + value);
    TerminatedSuffix([COLON], gap + value);
    assert colon[1..] == gap + value;
    SkipTo(between, colon);
    AfterKey(k, before, name, between + colon, d);
    MemberSteps(k, before + PutLiteral(name, between + colon), between + colon, colon, d);
  }

  // ----- the position -----

  /** A broken value stops where it is broken. */
  lemma {:induction false} BrokenStops(k: Codec, u: Unfinished, t: bytes, d: nat, left: nat)
    requires InOrder(k, u, d) && Broken(k, u, t, d, left)
    ensures var s := PutUnfinished(u, t);
            AtToken(s) && ParseValue(k, s, d) == Stop(left) && (u.Nothing? || s[0] == LBRACKET || s[0] == LBRACE)
    decreases u
  {
    hide ParseValue, ParseItems, ParseMembers, ParseMember, SkipWhitespace, PutItems, PutEntries, PutLiteral;
    hide LexicalItems, LexicalEntries, AcceptedItems, AcceptedEntries, ReadableLiteral, BrokenValue, BrokenLiteral;
    match u
    case Nothing =>
      BrokenValueStops(k, t, d, left);
      BrokenAtToken(k, t, d, left);
    case OpenItem(done, before, inner) =>
      BrokenStops(k, inner, t, d + 1, left);
      OpenItemStops(k, done, before, PutUnfinished(inner, t), d, left);
    case ItemEnd(done, last) => ItemEndStops(k, done, last, t, d);
    case OpenEntry(entries, before, name, between, gap, inner) =>
      BrokenStops(k, inner, t, d + 1, left);
      MemberValueStops(k, before, name, between, gap, PutUnfinished(inner, t), d + 1, left);
      OpenEntryStops(k, entries,
        before + PutLiteral(name, between + ([COLON] + (gap + PutUnfinished(inner, t)))), d, left);
    case EntryEnd(entries, member) => EntryEndStops(k, entries, member, t, d);
    case KeyMissing(entries, before) =>
      KeyStops(k, before, t, d + 1, left);
      OpenEntryStops(k, entries, before + t, d, left);
    case ColonMissing(entries, before, name, between) =>
      ColonStops(k, before, name, between, t, d + 1);
      OpenEntryStops(k, entries, before + PutLiteral(name, between + t), d, left);
  }

  lemma BrokenAtToken(k: Codec, t: bytes, d: nat, left: nat)
    requires BrokenValue(k, t, d, left)
    ensures AtToken(t)
  {
  }

  // ----- from the parse back to the place -----

  lemma TokenAfterBlanks(s: bytes)
    requires Terminated(s)
    ensures AtToken(SkipWhitespace(s))
  {
  }

  lemma {:induction false} FindsLiteral(s: bytes)
    requires OneNul(s) && s[0] == QUOTE && ParseString(s).Stop?
    ensures BrokenLiteral(s, ParseString(s).left)
  {
    if ScanLiteral(s[1..]).Some? {
      var n := ScanLiteral(s[1..]).value;
      var body := s[1..n + 1];
      assert body == s[1..][..n];
      ScanPrefix(s[1..]);
      NulFreeSlice(s, 1, n + 1);
      assert s[n + 1] == s[1..][n];
      SplitLiteral(s, n);
      assert ClosedBody(body) && Terminated(s[n + 2..]) && s == PutLiteral(body, s[n + 2..]);
    }
  }

  /** A value that stops without having started an array or object. */
  lemma FindsValue(k: Codec, s: bytes, d: nat)
    requires OneNul(s) && AtToken(s) && ParseValue(k, s, d).Stop?
    requires s[0] == LBRACKET || s[0] == LBRACE ==> d >= NESTING_LIMIT
    ensures BrokenValue(k, s, d, ParseValue(k, s, d).left)
  {
    hide ParseValue, ParseString, ParseArray, ParseObject, BrokenLiteral, StartsWith;
    if StartsWith(s, NULL_TEXT) || StartsWith(s, TRUE_TEXT) || StartsWith(s, FALSE_TEXT) {
      WordIsRead(k, s, d);
    } else if s[0] == QUOTE {
      ValueByFirstByte(k, s, d);
      FindsLiteral(s);
    } else if NumberStart(s[0]) {
      ValueByFirstByte(k, s, d);
    } else if s[0] == LBRACKET || s[0] == LBRACE {
      ValueByFirstByte(k, s, d);
      BracketStops(k, s, d);
    } else {
      NoValueStops(k, s, d);
    }
  }

  lemma WordIsRead(k: Codec, s: bytes, d: nat)
    requires Terminated(s) && (StartsWith(s, NULL_TEXT) || StartsWith(s, TRUE_TEXT) || StartsWith(s, FALSE_TEXT))
    ensures ParseValue(k, s, d).Done?
  {
  }

  /** The inside of an unfinished array, but for what may be at its very start. */
  ghost predicate BrokenItems(k: Codec, u: Unfinished, s: bytes, t: bytes, d: nat, left: nat) {
    match u
    case OpenItem(done, before, inner) =>
      LexicalItems(done) && AcceptedItems(k, done, d) && Blank(before) && InOrder(k, inner, d) &&
      s == PutDone(done, before + PutUnfinished(inner, t)) && Broken(k, inner, t, d, left)
    case ItemEnd(done, last) =>
      LexicalItems(done) && AcceptedItems(k, done, d) && s == PutDone(done, PutElement(last, t)) &&
      AtToken(t) && t[0] != COMMA && t[0] != RBRACKET && left == |t| && ElementBefore(k, last, t, d)
    case _ => false
  }

  /** One more finished element in front. */
  lemma OneMoreItem(k: Codec, e: Element, u: Unfinished, r: bytes, t: bytes, d: nat, left: nat) returns (v: Unfinished)
    requires BrokenItems(k, u, r, t, d, left) && LexicalElement(e) && Accepted(k, e.value, d)
    ensures BrokenItems(k, v, PutElement(e, [COMMA] + r), t, d, left)
  {
    hide PutElement, LexicalElement, Accepted, ElementBefore, InOrder, Broken, PutUnfinished;
    var done := [e] + u.done;
    MoreDone(k, e, u.done, d);
    match u {
      case OpenItem(_, before, inner) =>
        v := OpenItem(done, before, inner);
        PutMoreDone(e, u.done, before + PutUnfinished(inner, t));
      case ItemEnd(_, last) =>
        v := ItemEnd(done, last);
        PutMoreDone(e, u.done, PutElement(last, t));
    }
  }

  lemma MoreDone(k: Codec, e: Element, done: seq<Element>, d: nat)
    requires LexicalElement(e) && Accepted(k, e.value, d) && LexicalItems(done) && AcceptedItems(k, done, d)
    ensures LexicalItems([e] + done) && AcceptedItems(k, [e] + done, d)
  {
    hide LexicalElement, Accepted;
    assert ([e] + done)[1..] == done;
  }

  lemma PutMoreDone(e: Element, done: seq<Element>, r: bytes)
    ensures PutDone([e] + done, r) == PutElement(e, [COMMA] + PutDone(done, r))
  {
    hide PutElement;
    assert ([e] + done)[1..] == done;
  }

  lemma {:induction false} FindsInItems(k: Codec, s: bytes, d: nat, acc: seq<Json>) returns (u: Unfinished, t: bytes)
    requires OneNul(s) && ParseItems(k, s, d, acc).Stop?
    ensures BrokenItems(k, u, s, t, d, ParseItems(k, s, d, acc).left)
    decreases |s|, 1
  {
    hide ParseValue, ParseItems, SkipWhitespace, Broken, InOrder, Put, Lexical, Heads, Accepted, LexicalElement;
    var v := SkipWhitespace(s);
    var before := SkipSplits(s);
    TokenAfterBlanks(s);
    ItemsSteps(k, s, d, acc);
    var o := ParseValue(k, v, d);
    NothingDone(k, d);
    if o.Stop? {
      var inner;
      inner, t := FindsBroken(k, v, d);
      u := OpenItem([], before, inner);
    } else {
      var x := SkipWhitespace(o.rest);
      TokenAfterBlanks(o.rest);
      if x[0] == COMMA {
        var e := ReadsElement(k, s, d);
        OneNulAt(x, 0);
        OneNulSuffix(x, 1);
        HeadTail(x);
        var more;
        more, t := FindsInItems(k, x[1..], d, acc + [o.value]);
        u := OneMoreItem(k, e, more, x[1..], t, d, ParseItems(k, s, d, acc).left);
      } else {
        var w := ReadsHead(k, v, d);
        var after := SkipSplits(o.rest);
        u, t := ItemEnd([], Element(before, w, after)), x;
      }
    }
  }

  lemma NothingDone(k: Codec, d: nat)
    ensures LexicalItems([]) && AcceptedItems(k, [], d) && LexicalEntries([]) && AcceptedEntries(k, [], d)
  {
  }

  // ----- unfinished objects -----

  /** The inside of an unfinished object, but for what may be at its very start. */
  ghost predicate BrokenMembers(k: Codec, u: Unfinished, s: bytes, t: bytes, d: nat, left: nat) {
    match u
    case OpenEntry(entries, before, name, between, gap, inner) =>
      LexicalEntries(entries) && AcceptedEntries(k, entries, d) &&
      Blank(before) && ReadableLiteral(name) && Blank(between) && Blank(gap) && InOrder(k, inner, d) &&
      s == PutMembers(entries,
        before + PutLiteral(name, between + ([COLON] + (gap + PutUnfinished(inner, t))))) &&
      Broken(k, inner, t, d, left)
    case EntryEnd(entries, member) =>
      LexicalEntries(entries) && AcceptedEntries(k, entries, d) && s == PutMembers(entries, PutEntry(member, t)) &&
      AtToken(t) && t[0] != COMMA && t[0] != RBRACE && left == |t| && EntryBefore(k, member, t, d)
    case KeyMissing(entries, before) =>
      LexicalEntries(entries) && AcceptedEntries(k, entries, d) && Blank(before) && AtToken(t) &&
      s == PutMembers(entries, before + t) && (BrokenLiteral(t, left) || (t[0] != QUOTE && left == |t| - 1))
    case ColonMissing(entries, before, name, between) =>
      LexicalEntries(entries) && AcceptedEntries(k, entries, d) &&
      Blank(before) && ReadableLiteral(name) && Blank(between) && AtToken(t) && t[0] != COLON && left == |t| &&
      s == PutMembers(entries, before + PutLiteral(name, between + t))
    case _ => false
  }

  /** Its text behind the finished members. */
  function Tail(u: Unfinished, t: bytes): bytes
    requires u.OpenEntry? || u.EntryEnd? || u.KeyMissing? || u.ColonMissing?
  {
    match u
    case OpenEntry(_, before, name, between, gap, inner) =>
      before + PutLiteral(name, between + ([COLON] + (gap + PutUnfinished(inner, t))))
    case EntryEnd(_, member) => PutEntry(member, t)
    case KeyMissing(_, before) => before + t
    case ColonMissing(_, before, name, between) => before + PutLiteral(name, between + t)
  }

  /** One more finished member in front. */
  lemma OneMoreMember(k: Codec, e: Entry, u: Unfinished, r: bytes, t: bytes, d: nat, left: nat) returns (v: Unfinished)
    requires BrokenMembers(k, u, r, t, d, left) && LexicalEntry(e) && AcceptedEntry(k, e, d)
    ensures BrokenMembers(k, v, PutEntry(e, [COMMA] + r), t, d, left)
  {
    hide PutEntry, LexicalEntry, AcceptedEntry, EntryBefore, InOrder, Broken, PutUnfinished, PutLiteral, BrokenLiteral,
        ReadableLiteral;
    MoreMembers(k, e, u.entries, d);
    v := u.(entries := [e] + u.entries);
    PutMoreMembers(e, u.entries, Tail(u, t));
  }

  lemma MoreMembers(k: Codec, e: Entry, entries: seq<Entry>, d: nat)
    requires LexicalEntry(e) && AcceptedEntry(k, e, d) && LexicalEntries(entries) && AcceptedEntries(k, entries, d)
    ensures LexicalEntries([e] + entries) && AcceptedEntries(k, [e] + entries, d)
  {
    hide LexicalEntry, AcceptedEntry;
    assert ([e] + entries)[1..] == entries;
  }

  lemma PutMoreMembers(e: Entry, entries: seq<Entry>, r: bytes)
    ensures PutMembers([e] + entries, r) == PutEntry(e, [COMMA] + PutMembers(entries, r))
  {
    hide PutEntry;
    assert ([e] + entries)[1..] == entries;
  }

  lemma {:induction false} FindsInMembers(k: Codec, s: bytes, d: nat, acc: seq<Member>)
      returns (u: Unfinished, t: bytes)
    requires OneNul(s) && ParseMembers(k, s, d, acc).Stop?
    ensures BrokenMembers(k, u, s, t, d, ParseMembers(k, s, d, acc).left)
    decreases |s|, 2
  {
    hide ParseMember, ParseMembers, SkipWhitespace, BrokenMembers, LexicalEntry, AcceptedEntry, EntryBefore;
    MembersSteps(k, s, d, acc);
    var o := ParseMember(k, s, d);
    NothingDone(k, d);
    if o.Stop? {
      u, t := FindsInMember(k, s, d);
    } else {
      var x := SkipWhitespace(o.rest);
      TokenAfterBlanks(o.rest);
      if x[0] == COMMA {
        var e := ReadsMember(k, s, d);
        OneNulAt(x, 0);
        OneNulSuffix(x, 1);
        HeadTail(x);
        var more;
        more, t := FindsInMembers(k, x[1..], d, acc + [o.value]);
        u := OneMoreMember(k, e, more, x[1..], t, d, ParseMembers(k, s, d, acc).left);
      } else {
        var e := FindsEntry(k, s, d);
        u, t := EntryEnd([], e), x;
        LoneMember(k, u, s, t, d);
      }
    }
  }

  lemma LoneMember(k: Codec, u: Unfinished, s: bytes, t: bytes, d: nat)
    requires u.EntryEnd? && u.entries == [] && s == PutEntry(u.member, t) && EntryBefore(k, u.member, t, d)
    requires AtToken(t) && t[0] != COMMA && t[0] != RBRACE
    ensures BrokenMembers(k, u, s, t, d, |t|)
  {
    hide EntryBefore, PutEntry;
    NothingDone(k, d);
  }

  /** The member that was read in front of what stops the object. */
  lemma FindsEntry(k: Codec, s: bytes, d: nat) returns (e: Entry)
    requires OneNul(s) && ParseMember(k, s, d).Done?
    ensures var t := SkipWhitespace(ParseMember(k, s, d).rest);
            s == PutEntry(e, t) && EntryBefore(k, e, t, d)
  {
    hide ParseMember, ParseValue, SkipWhitespace, Heads, Put, ClosedBody, Unescape;
    MemberParts(k, s, d);
    var before := SkipSplits(s);
    var s1 := SkipWhitespace(s);
    var name := ReadsLiteral(s1);
    var between := SkipSplits(ParseString(s1).rest);
    var s2 := SkipWhitespace(ParseString(s1).rest);
    OneNulSuffix(s2, 1);
    HeadTail(s2);
    var gap := SkipSplits(s2[1..]);
    var v := SkipWhitespace(s2[1..]);
    var w := ReadsHead(k, v, d);
    var after := SkipSplits(ParseValue(k, v, d).rest);
    e := Entry(before, name, between, Element(gap, w, after));
  }

  /** A member that stops: at its key, at its colon, or in its value. */
  lemma {:induction false} FindsInMember(k: Codec, s: bytes, d: nat) returns (u: Unfinished, t: bytes)
    requires OneNul(s) && ParseMember(k, s, d).Stop?
    ensures BrokenMembers(k, u, s, t, d, ParseMember(k, s, d).left)
    decreases |s|, 1
  {
    hide ParseMember, ParseString, ParseValue, SkipWhitespace, ClosedBody, Unescape, Broken, InOrder, BrokenLiteral;
    NothingDone(k, d);
    var before := SkipSplits(s);
    var s1 := SkipWhitespace(s);
    TokenAfterBlanks(s);
    MemberStopsAt(k, s, d);
    if ParseString(s1).Stop? {
      if s1[0] == QUOTE {
        FindsLiteral(s1);
      } else {
        NoQuoteStops(s1);
      }
      u, t := KeyMissing([], before), s1;
    } else {
      var name := ReadsLiteral(s1);
      var rest := ParseString(s1).rest;
      ParseStringAdvances(s1);
      var between := SkipSplits(rest);
      var s2 := SkipWhitespace(rest);
      TokenAfterBlanks(rest);
      if s2[0] != COLON {
        u, t := ColonMissing([], before, name, between), s2;
      } else {
        OneNulAt(s2, 0);
        OneNulSuffix(s2, 1);
        HeadTail(s2);
        var gap := SkipSplits(s2[1..]);
        TokenAfterBlanks(s2[1..]);
        var inner;
        inner, t := FindsBroken(k, SkipWhitespace(s2[1..]), d);
        u := OpenEntry([], before, name, between, gap, inner);
      }
    }
  }

  lemma MemberStopsAt(k: Codec, s: bytes, d: nat)
    requires Terminated(s) && ParseMember(k, s, d).Stop?
    ensures var name := ParseString(SkipWhitespace(s));
            if name.Stop? then ParseMember(k, s, d) == Stop(name.left)
            else
              Terminated(name.rest) &&
              var s2 := SkipWhitespace(name.rest);
              if s2[0] != COLON then ParseMember(k, s, d) == Stop(|s2|)
              else
                |s2| > 1 && ParseValue(k, SkipWhitespace(s2[1..]), d).Stop? &&
                ParseMember(k, s, d) == Stop(ParseValue(k, SkipWhitespace(s2[1..]), d).left)
  {
    ParseStringAdvances(SkipWhitespace(s));
  }

  // ----- any value -----

  /** The unfinished tree of a value that stops. */
  lemma {:induction false} FindsBroken(k: Codec, s: bytes, d: nat) returns (u: Unfinished, t: bytes)
    requires OneNul(s) && AtToken(s) && ParseValue(k, s, d).Stop?
    ensures InOrder(k, u, d) && s == PutUnfinished(u, t) && Broken(k, u, t, d, ParseValue(k, s, d).left)
    decreases |s|, 0
  {
    hide ParseValue, ParseArray, ParseObject, ParseItems, ParseMembers, SkipWhitespace, BrokenValue, BrokenItems,
        BrokenMembers, InOrder, Broken, PutUnfinished;
    var left := ParseValue(k, s, d).left;
    if (s[0] == LBRACKET || s[0] == LBRACE) && d < NESTING_LIMIT {
      ValueByFirstByte(k, s, d);
      OneNulAt(s, 0);
      OneNulSuffix(s, 1);
      HeadTail(s);
      if s[0] == LBRACKET {
        ArraySteps(k, s, d);
        u, t := FindsInItems(k, s[1..], d + 1, []);
        ArrayIsBroken(k, u, s[1..], t, d, left);
      } else {
        ObjectSteps(k, s, d);
        u, t := FindsInMembers(k, s[1..], d + 1, []);
        ObjectIsBroken(k, u, s[1..], t, d, left);
      }
    } else {
      FindsValue(k, s, d);
      u, t := Nothing, s;
      NothingIsBroken(k, s, d, left);
    }
  }

  lemma NothingIsBroken(k: Codec, t: bytes, d: nat, left: nat)
    requires BrokenValue(k, t, d, left)
    ensures InOrder(k, Nothing, d) && t == PutUnfinished(Nothing, t) && Broken(k, Nothing, t, d, left)
  {
  }

  lemma ArrayIsBroken(k: Codec, u: Unfinished, s: bytes, t: bytes, d: nat, left: nat)
    requires BrokenItems(k, u, s, t, d + 1, left) && d < NESTING_LIMIT
    requires Terminated(s) && SkipWhitespace(s)[0] != RBRACKET
    ensures InOrder(k, u, d) && [LBRACKET] + s == PutUnfinished(u, t) && Broken(k, u, t, d, left)
  {
    hide SkipWhitespace, BrokenValue, LexicalItems, AcceptedItems, ElementBefore, PutItems;
    if u.OpenItem? && |u.done| == 0 && u.inner.Nothing? {
      BrokenAtToken(k, t, d + 1, left);
      SkipToToken(u.before, t);
    }
  }

  lemma ObjectIsBroken(k: Codec, u: Unfinished, s: bytes, t: bytes, d: nat, left: nat)
    requires BrokenMembers(k, u, s, t, d + 1, left) && d < NESTING_LIMIT
    requires Terminated(s) && SkipWhitespace(s)[0] != RBRACE
    ensures InOrder(k, u, d) && [LBRACE] + s == PutUnfinished(u, t) && Broken(k, u, t, d, left)
  {
    hide SkipWhitespace, BrokenValue, LexicalEntries, AcceptedEntries, EntryBefore, PutEntries, PutLiteral,
        ReadableLiteral, BrokenLiteral;
    if u.KeyMissing? && |u.entries| == 0 {
      SkipToToken(u.before, t);
    }
  }

  // ----- the whole text -----

  /** `s` is `w`, or `w` behind a byte order mark, which takes two bytes more to be one. */
  predicate Unmarked(s: bytes, w: bytes) {
    (s == w && !(StartsWith(w, BYTE_ORDER_MARK) && |w| > 4)) || (s == BYTE_ORDER_MARK + w && |w| >= 2)
  }

  lemma UnmarkedIsSkipped(s: bytes, w: bytes)
    requires Terminated(s)
    ensures Unmarked(s, w) <==> SkipMark(s) == w
  {
    if s == BYTE_ORDER_MARK + w {
      assert s[..3] == BYTE_ORDER_MARK && s[3..] == w;
    }
    if SkipMark(s) == w && w != s {
      assert s == s[..3] + s[3..];
    }
  }

  /** The text holds an unfinished tree, and where it is broken off something that cannot stand there. */
  ghost predicate BrokenText(k: Codec, s: bytes, before: bytes, u: Unfinished, t: bytes, left: nat) {
    Blank(before) && Unmarked(s, before + PutUnfinished(u, t)) && InOrder(k, u, 0) && Broken(k, u, t, 0, left)
  }

  /** The text holds a value, and something else than the end behind it. */
  predicate TrailingText(k: Codec, s: bytes, before: bytes, v: Cst, after: bytes, t: bytes, left: nat) {
    Blank(before) && Unmarked(s, before + Put(v, after + t)) && Blank(after) && Heads(k, v, after + t, 0) &&
    AtToken(t) && t[0] != NUL && left == |t|
  }

  lemma BrokenTextStops(k: Codec, s: bytes, before: bytes, u: Unfinished, t: bytes, left: nat, whole: bool)
    requires Terminated(s) && BrokenText(k, s, before, u, t, left)
    ensures Parse(k, s, whole) == Stop(left)
  {
    hide ParseValue, SkipMark, SkipWhitespace, Unmarked, InOrder, Broken, PutUnfinished;
    BrokenStops(k, u, t, 0, left);
    SkipToToken(before, PutUnfinished(u, t));
    UnmarkedIsSkipped(s, before + PutUnfinished(u, t));
  }

  lemma TrailingTextStops(k: Codec, s: bytes, before: bytes, v: Cst, after: bytes, t: bytes, left: nat)
    requires Terminated(s) && TrailingText(k, s, before, v, after, t, left)
    ensures Parse(k, s, true) == Stop(left)
  {
    hide ParseValue, SkipMark, SkipWhitespace, Unmarked, Heads, Put;
    SkipToToken(after, t);
    ParsesHead(k, v, after + t, 0);
    FirstOfHead(k, v, after + t, 0);
    SkipTo(before, Put(v, after + t));
    UnmarkedIsSkipped(s, before + Put(v, after + t));
  }

  lemma StopIsBroken(k: Codec, s: bytes, whole: bool)
    requires OneNul(s) && Parse(k, s, whole).Stop?
    ensures var left := Parse(k, s, whole).left;
            (exists before, u, t :: BrokenText(k, s, before, u, t, left)) ||
            (whole && exists before, v, after, t :: TrailingText(k, s, before, v, after, t, left))
  {
    hide ParseValue, SkipMark, SkipWhitespace, Unmarked, InOrder, Broken, PutUnfinished, Heads, Put;
    var left := Parse(k, s, whole).left;
    var w := SkipMark(s);
    UnmarkedIsSkipped(s, w);
    SkippedHasOneNul(s);
    var before := SkipSplits(w);
    TokenAfterBlanks(w);
    var o := ParseValue(k, SkipWhitespace(w), 0);
    if o.Stop? {
      var u, t := FindsBroken(k, SkipWhitespace(w), 0);
      assert BrokenText(k, s, before, u, t, left);
    } else {
      var v := ReadsHead(k, SkipWhitespace(w), 0);
      var after := SkipSplits(o.rest);
      TokenAfterBlanks(o.rest);
      assert TrailingText(k, s, before, v, after, SkipWhitespace(o.rest), left);
    }
  }

  lemma SkippedHasOneNul(s: bytes)
    requires OneNul(s)
    ensures OneNul(SkipMark(s))
  {
    if SkipMark(s) != s {
      OneNulSuffix(s, 3);
    }
  }

  /**
   * A text is refused with `left` bytes unread exactly when it is broken there: behind an unfinished
   * tree, or, if it has to be read to its end, behind a whole value.
   */
  lemma ErrorTheorem(k: Codec, s: bytes, whole: bool, left: nat)
    requires OneNul(s)
    ensures Parse(k, s, whole) == Stop(left) <==>
            (exists before, u, t :: BrokenText(k, s, before, u, t, left)) ||
            (whole && exists before, v, after, t :: TrailingText(k, s, before, v, after, t, left))
  {
    hide Parse, BrokenText, TrailingText;
    if Parse(k, s, whole) == Stop(left) {
      StopIsBroken(k, s, whole);
    }
    if exists before, u, t :: BrokenText(k, s, before, u, t, left) {
      var before, u, t :| BrokenText(k, s, before, u, t, left);
      BrokenTextStops(k, s, before, u, t, left, whole);
    } else if whole && exists before, v, after, t :: TrailingText(k, s, before, v, after, t, left) {
      var before, v, after, t :| TrailingText(k, s, before, v, after, t, left);
      TrailingTextStops(k, s, before, v, after, t, left);
    }
  }
}
