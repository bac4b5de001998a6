/** The parser as it runs: a cursor, a depth, and nodes allocated on the way. */
module ParseBuffer {
  import opened Bytes
  import opened Values
  import opened Memory
  import opened Items
  import opened Numbers
  import Parser
  import Unescaping

  // ----- facts about the unread text -----

  lemma {:induction false} SkipTwice(s: bytes)
    requires Terminated(s)
    ensures Parser.SkipWhitespace(Parser.SkipWhitespace(s)) == Parser.SkipWhitespace(s)
    decreases |s|
  {
    if s[0] <= SPACE && |s| > 1 {
      SkipTwice(s[1..]);
    }
  }

  /** What is behind the first NUL of a block does not matter. */
  lemma {:induction false} CStringPrefix(s: bytes, n: nat)
    requires n < |s| && s[n] == NUL
    ensures CString(s) == CString(s[..n])
    decreases n
  {
    if n > 0 && s[0] != NUL {
      CStringPrefix(s[1..], n - 1);
      assert s[1..][..n - 1] == s[..n][1..];
    }
  }

  /** What follows an element at `offset`: a comma and more of them, or the end of the array. */
  function AfterItem(k: Codec, t: bytes, offset: nat, d: nat, items: seq<Json>): Parser.Outcome<Json>
    requires Terminated(t) && offset < |t|
  {
    if t[offset] == COMMA then Parser.ParseItems(k, t[offset + 1..], d, items)
    else if t[offset] == RBRACKET then Parser.Done(Array(items), t[offset + 1..])
    else Parser.Stop(|t| - offset)
  }

  lemma AfterItemAt(k: Codec, t: bytes, offset: nat, d: nat, items: seq<Json>)
    requires Terminated(t) && offset < |t|
    ensures AfterItem(k, t[offset..], 0, d, items) == AfterItem(k, t, offset, d, items)
  {
    hide Parser.ParseItems;
    assert t[offset..][1..] == t[offset + 1..];
  }

  lemma ItemsOutcome(k: Codec, s: bytes, d: nat, items: seq<Json>)
    requires Terminated(s)
    ensures var o := Parser.ParseValue(k, Parser.SkipWhitespace(s), d);
            Parser.ParseItems(k, s, d, items) ==
              if o.Stop? then Parser.Stop(o.left)
              else AfterItem(k, Parser.SkipWhitespace(o.rest), 0, d, items + [o.value])
  {
  }

  /** parse_array in terms of the position `next` of the first byte behind its bracket that is not blank. */
  lemma ArrayOutcome(k: Codec, content: bytes, offset: nat, next: nat, d: nat)
    requires offset < next < |content| && Terminated(content) && content[offset] == LBRACKET
    requires Parser.SkipWhitespace(content[offset + 1..]) == content[next..]
    ensures Parser.ParseArray(k, content[offset..], d) ==
            if d >= Parser.NESTING_LIMIT then Parser.Stop(|content| - offset)
            else if content[next] == RBRACKET then Parser.Done(Array([]), content[next + 1..])
            else Parser.ParseItems(k, content[next..], d + 1, [])
  {
    assert content[offset..][1..] == content[offset + 1..];
    assert content[next..][1..] == content[next + 1..];
    SkipTwice(content[offset + 1..]);
    ItemsOutcome(k, content[offset + 1..], d + 1, []);
    ItemsOutcome(k, content[next..], d + 1, []);
  }

  lemma TooDeep(k: Codec, s: bytes, d: nat)
    requires Terminated(s) && d >= Parser.NESTING_LIMIT
    ensures s[0] == LBRACKET ==> Parser.ParseArray(k, s, d) == Parser.Stop(|s|)
    ensures s[0] == LBRACE ==> Parser.ParseObject(k, s, d) == Parser.Stop(|s|)
  {
  }

  /** What follows a member. */
  function AfterMember(k: Codec, t: bytes, offset: nat, d: nat, members: seq<Member>): Parser.Outcome<Json>
    requires Terminated(t) && offset < |t|
  {
    if t[offset] == COMMA then Parser.ParseMembers(k, t[offset + 1..], d, members)
    else if t[offset] == RBRACE then Parser.Done(Object(members), t[offset + 1..])
    else Parser.Stop(|t| - offset)
  }

  lemma AfterMemberAt(k: Codec, t: bytes, offset: nat, d: nat, members: seq<Member>)
    requires Terminated(t) && offset < |t|
    ensures AfterMember(k, t[offset..], 0, d, members) == AfterMember(k, t, offset, d, members)
  {
    hide Parser.ParseMembers;
    assert t[offset..][1..] == t[offset + 1..];
  }

  lemma MembersOutcome(k: Codec, s: bytes, d: nat, members: seq<Member>)
    requires Terminated(s)
    ensures var o := Parser.ParseMember(k, s, d);
            Parser.ParseMembers(k, s, d, members) ==
              if o.Stop? then Parser.Stop(o.left)
              else AfterMember(k, Parser.SkipWhitespace(o.rest), 0, d, members + [o.value])
  {
  }

  /** A name and its colon; what is left starts at the value. */
  function ParseName(s: bytes): (o: Parser.Outcome<bytes>)
    requires Terminated(s)
    ensures o.Done? ==> Terminated(o.rest)
  {
    Parser.ParseStringAdvances(s);
    match Parser.ParseString(s)
    case Stop(left) => Parser.Stop(left)
    case Done(name, rest) =>
      var t := Parser.SkipWhitespace(rest);
      if t[0] != COLON then Parser.Stop(|t|) else Parser.Done(name, Parser.SkipWhitespace(t[1..]))
  }

  lemma MemberOutcome(k: Codec, s: bytes, d: nat)
    requires Terminated(s)
    ensures var name := ParseName(Parser.SkipWhitespace(s));
            if name.Stop? then Parser.ParseMember(k, s, d) == Parser.Stop(name.left)
            else
              var value := Parser.ParseValue(k, name.rest, d);
              Parser.ParseMember(k, s, d) ==
                if value.Stop? then Parser.Stop(value.left)
                else Parser.Done(Member(Some(CString(name.value)), value.value), value.rest)
  {
  }

  lemma ObjectOutcome(k: Codec, content: bytes, offset: nat, next: nat, d: nat)
    requires offset < next < |content| && Terminated(content) && content[offset] == LBRACE
    requires Parser.SkipWhitespace(content[offset + 1..]) == content[next..]
    ensures Parser.ParseObject(k, content[offset..], d) ==
            if d >= Parser.NESTING_LIMIT then Parser.Stop(|content| - offset)
            else if content[next] == RBRACE then Parser.Done(Object([]), content[next + 1..])
            else Parser.ParseMembers(k, content[next..], d + 1, [])
  {
    assert content[offset..][1..] == content[offset + 1..];
    assert content[next..][1..] == content[next + 1..];
    SkipTwice(content[offset + 1..]);
    MembersOutcome(k, content[offset + 1..], d + 1, []);
    MembersOutcome(k, content[next..], d + 1, []);
  }

  /** parse_value in its cases. */
  lemma ValueOutcome(k: Codec, s: bytes, d: nat)
    requires Terminated(s)
    ensures var o := Parser.ParseValue(k, s, d);
      if Parser.StartsWith(s, NULL_TEXT) then o == Parser.Done(Null, s[4..])
      else if Parser.StartsWith(s, FALSE_TEXT) then o == Parser.Done(False, s[5..])
      else if Parser.StartsWith(s, TRUE_TEXT) then o == Parser.Done(True, s[4..])
      else if s[0] == QUOTE then
        match Parser.ParseString(s)
        case Done(out, rest) => o == Parser.Done(String(Some(CString(out))), rest)
        case Stop(left) => o == Parser.Stop(left)
      else if NumberStart(s[0]) then o == Parser.ParseNumber(k, s)
      else if s[0] == LBRACKET then o == Parser.ParseArray(k, s, d)
      else if s[0] == LBRACE then o == Parser.ParseObject(k, s, d)
      else o == Parser.Stop(|s|)
  {
  }

  // ----- the loops over the unread text -----

  /** What the number-copying loop keeps after `i` bytes. */
  predicate Copying(content: bytes, offset: nat, i: nat)
    requires offset <= |content|
  {
    i <= Parser.NUMBER_BUFFER && offset + i <= |content| &&
    i + Parser.NumberRun(content[offset + i..], Parser.NUMBER_BUFFER - i) ==
    Parser.NumberRun(content[offset..], Parser.NUMBER_BUFFER)
  }

  lemma CopyingStep(content: bytes, offset: nat, i: nat)
    requires offset <= |content| && Copying(content, offset, i) && i < Parser.NUMBER_BUFFER && offset + i < |content|
    ensures NumberByte(content[offset + i]) ==> offset + i + 1 <= |content| && Copying(content, offset, i + 1)
    ensures !NumberByte(content[offset + i]) ==> i == Parser.NumberRun(content[offset..], Parser.NUMBER_BUFFER)
  {
    assert content[offset + i..][1..] == content[offset + i + 1..];
  }

  lemma CopyingStarts(content: bytes, offset: nat)
    requires offset <= |content|
    ensures Copying(content, offset, 0)
  {
  }

  lemma CopyingEnds(content: bytes, offset: nat, i: nat)
    requires offset <= |content| && Copying(content, offset, i)
    ensures i <= Parser.NUMBER_BUFFER && offset + i <= |content|
    ensures i == Parser.NUMBER_BUFFER || offset + i == |content| || !NumberByte(content[offset + i]) ==>
              i == Parser.NumberRun(content[offset..], Parser.NUMBER_BUFFER)
  {
    if i < Parser.NUMBER_BUFFER && offset + i < |content| {
      CopyingStep(content, offset, i);
    }
  }

  /** parse_number in terms of the position of its lexeme. */
  lemma NumberOutcome(k: Codec, content: bytes, offset: nat, lexeme: bytes)
    requires Terminated(content) && offset < |content|
    requires lexeme == content[offset..][..Parser.NumberRun(content[offset..], Parser.NUMBER_BUFFER)]
    ensures var (used, number) := k.strtod(lexeme);
            used <= |content| - offset &&
            Parser.ParseNumber(k, content[offset..]) ==
              if used == 0 then Parser.Stop(|content| - offset)
              else Parser.Done(Number(number), content[offset + used..])
  {
    var used := k.strtod(lexeme).0;
    assert content[offset..][used..] == content[offset + used..];
  }

  /** What the sizing loop keeps: the end it will find, and the escapes still to count. */
  predicate Scanning(content: bytes, start: nat, end: nat, skipped: nat)
    requires start <= end <= |content|
  {
    match Parser.ScanLiteral(content[end..])
    case None => Parser.ScanLiteral(content[start..]) == None
    case Some(m) =>
      Parser.ScanLiteral(content[start..]) == Some(end - start + m) && end + m <= |content| &&
      skipped + Unescaping.EscapePairs(content[end..end + m]) == Unescaping.EscapePairs(content[start..end + m])
  }

  lemma ScanAhead(s: bytes, step: nat)
    requires step <= |s| && if step == 1 then s[0] != QUOTE && s[0] != BACKSLASH else step == 2 && s[0] == BACKSLASH
    ensures var more := Parser.ScanLiteral(s[step..]);
            Parser.ScanLiteral(s) == if more == None then None else Some(step + more.value)
  {
  }

  lemma PairsAhead(s: bytes, step: nat)
    requires step <= |s| && if step == 1 then s[0] != BACKSLASH else step == 2 && s[0] == BACKSLASH
    ensures Unescaping.EscapePairs(s) == step - 1 + Unescaping.EscapePairs(s[step..])
  {
  }

  lemma ScanningStarts(content: bytes, start: nat)
    requires start <= |content|
    ensures Scanning(content, start, start, 0)
  {
  }

  /** A plain byte, or a backslash and the byte behind it, which is one more to skip. */
  lemma ScanningStep(content: bytes, start: nat, end: nat, skipped: nat, step: nat)
    requires start <= end && end + step <= |content| && Scanning(content, start, end, skipped)
    requires if step == 1 then content[end] != QUOTE && content[end] != BACKSLASH
             else step == 2 && content[end] == BACKSLASH
    ensures Scanning(content, start, end + step, skipped + step - 1)
  {
    hide Parser.ScanLiteral, Unescaping.EscapePairs;
    ScanAhead(content[end..], step);
    assert content[end..][step..] == content[end + step..];
    var r := Parser.ScanLiteral(content[end..]);
    if r.Some? {
      PairsAhead(content[end..end + r.value], step);
      assert content[end..end + r.value][step..] == content[end + step..end + r.value];
    }
  }

  lemma ScanningEnds(content: bytes, start: nat, end: nat, skipped: nat)
    requires start <= end <= |content| && Scanning(content, start, end, skipped)
    ensures end == |content| || (content[end] == BACKSLASH && end + 1 == |content|) ==>
            Parser.ScanLiteral(content[start..]) == None
    ensures end < |content| && content[end] == QUOTE ==>
              Parser.ScanLiteral(content[start..]) == Some(end - start) &&
              skipped == Unescaping.EscapePairs(content[start..end])
  {
    assert content[end..end] == [];
  }

  /** parse_string in terms of the positions of its literal. */
  lemma StringOutcome(content: bytes, offset: nat, end: nat)
    requires offset < end < |content| && Terminated(content) && content[offset] == QUOTE
    requires Parser.ScanLiteral(content[offset + 1..]) == Some(end - offset - 1)
    ensures Parser.ParseString(content[offset..]) ==
            match Parser.Unescape(content[offset + 1..end], [])
            case Stop(left) => Parser.Stop(|content| - end + left)
            case Done(out, _) => Parser.Done(out, content[end + 1..])
  {
    assert content[offset..][1..] == content[offset + 1..];
    assert content[offset..][1..end - offset] == content[offset + 1..end];
    assert content[offset..][end - offset + 1..] == content[end + 1..];
  }

  lemma NoStringOutcome(content: bytes, offset: nat)
    requires offset < |content| && Terminated(content)
    requires content[offset] == QUOTE ==> Parser.ScanLiteral(content[offset + 1..]) == None
    ensures Parser.ParseString(content[offset..]) == Parser.Stop(|content| - offset - 1)
  {
    assert content[offset..][1..] == content[offset + 1..];
  }

  // ----- what parsing allocates -----

  /** The contents of a node own no block twice. */
  predicate ContentSeparate(item: Item) {
    !item.reference && Block(item.valuestring) !! OwnedBy(item.kids) && SeparateAll(item.kids)
  }

  /** Nothing hangs off the node but its key. */
  predicate Bare(item: Item) {
    !item.reference && item.valuestring == None && item.kids == []
  }

  /** A node that has no contents yet. */
  predicate Empty(item: Item) {
    Bare(item) && !item.constName && item.valueint == 0 && item.valuedouble == ZERO
  }

  lemma BareOwnsNothing(item: Item)
    requires Bare(item)
    ensures ContentBlocks(item) == {} && ContentSeparate(item)
  {
  }

  lemma BlankOwnsItself(a: Address)
    ensures Owned(Blank(a)) == {a} && Separate(Blank(a))
  {
    BareOwnsNothing(Blank(a));
  }

  /** A node with a key of its own and no contents. */
  lemma NamedOwns(item: Item)
    requires Empty(item)
    ensures Owned(item) == {item.address} + Block(item.name)
    ensures item.address !in Block(item.name) ==> Separate(item)
  {
    BareOwnsNothing(item);
  }

  predicate SameNode(item: Item, filled: Item) {
    filled.address == item.address && filled.name == item.name && filled.constName == item.constName
  }

  /** The contents of the node are what has been added to the live blocks. */
  ghost predicate Holds(hooks: Hooks, item: Item, filled: Item, liveBefore: set<Address>)
    reads hooks
  {
    SameNode(item, filled) && ContentSeparate(filled) &&
    hooks.live == liveBefore + ContentBlocks(filled) && ContentBlocks(filled) !! liveBefore
  }

  /** A parse that succeeds fills the node; one that fails leaves it without contents. */
  ghost predicate Filled(hooks: Hooks, ok: bool, item: Item, filled: Item, liveBefore: set<Address>)
    reads hooks
  {
    Holds(hooks, item, filled, liveBefore) && if ok then Parsed(filled) else Empty(filled)
  }

  /** Parsed elements, or members if `named`. */
  predicate ParsedKids(kids: seq<Item>, named: bool) {
    forall i :: 0 <= i < |kids| ==> Parsed(kids[i]) && (kids[i].name.Some? <==> named)
  }

  /** The same for a list of finished nodes. */
  ghost predicate Built(hooks: Hooks, items: seq<Item>, liveBefore: set<Address>)
    reads hooks
  {
    SeparateAll(items) &&
    hooks.live == liveBefore + OwnedBy(items) && OwnedBy(items) !! liveBefore
  }

  lemma NothingBuilt(hooks: Hooks)
    ensures Built(hooks, [], hooks.live) && Meanings([]) == []
  {
  }

  /** A finished node joins the list. */
  lemma NodeAdded(hooks: Hooks, ok: bool, kids: seq<Item>, node: Item, filled: Item, liveBefore: set<Address>)
    requires Empty(node) && Separate(node) && SeparateAll(kids)
    requires OwnedBy(kids) !! liveBefore && Owned(node) !! liveBefore && OwnedBy(kids) !! Owned(node)
    requires Filled(hooks, ok, node, filled, liveBefore + OwnedBy(kids) + Owned(node))
    ensures Built(hooks, kids + [filled], liveBefore)
    ensures ok && ParsedKids(kids, node.name.Some?) ==> ParsedKids(kids + [filled], node.name.Some?)
  {
    hide Parsed;
    BareOwnsNothing(node);
    Appended(kids, filled);
    assert Owned(filled) == Owned(node) + ContentBlocks(filled);
  }

  /** The finished list becomes the contents of a node. */
  lemma ListFilled(hooks: Hooks, item: Item, kind: Kind, kids: seq<Item>, liveBefore: set<Address>)
    requires Empty(item) && Built(hooks, kids, liveBefore)
    requires kind == ArrayKind || kind == ObjectKind
    requires ParsedKids(kids, kind == ObjectKind)
    ensures var filled := item.(kind := kind, kids := kids);
            Filled(hooks, true, item, filled, liveBefore) &&
            (kind == ArrayKind ==> Meaning(filled) == Array(Meanings(kids))) &&
            (kind == ObjectKind ==> Meaning(filled) == Object(MemberMeanings(kids)))
    ensures kids == [] ==> Filled(hooks, false, item, item, liveBefore)
  {
    BareOwnsNothing(item);
  }

  /** A node that is left as it was, and one that gets a string in a block of its own. */
  lemma NothingFilled(hooks: Hooks, item: Item)
    requires Empty(item)
    ensures Filled(hooks, false, item, item, hooks.live)
  {
    BareOwnsNothing(item);
  }

  lemma TextFilled(hooks: Hooks, item: Item, text: Text, liveBefore: set<Address>)
    requires Empty(item) && text.address !in liveBefore && hooks.live == liveBefore + {text.address}
    ensures Filled(hooks, true, item, item.(kind := StringKind, valuestring := Some(text)), liveBefore)
  {
  }

  /** The block of a parsed string, when it moves from the contents of the node into its key. */
  lemma TextBecomesName(hooks: Hooks, ok: bool, item: Item, filled: Item, liveBefore: set<Address>)
    requires Filled(hooks, ok, item, filled, liveBefore) && item.name == None && filled.kids == []
    requires ok ==> filled.kind == StringKind
    ensures var named := if ok then filled.(name := filled.valuestring, valuestring := None) else filled;
            Empty(named) && named.address == item.address &&
            hooks.live == liveBefore + Block(named.name) && Block(named.name) !! liveBefore
  {
  }

  /** The failure exits of the list loops: what has been built is deleted. */
  method Abandon(hooks: Hooks, kids: seq<Item>, ghost liveBefore: set<Address>)
    requires Built(hooks, kids, liveBefore)
    modifies hooks
    ensures Built(hooks, [], liveBefore) && hooks.refusals == old(hooks.refusals)
  {
    hide SeparateAll, OwnedBy;
    Delete(hooks, kids);
    assert hooks.live == liveBefore;
    NothingBuilt(hooks);
  }

  class ParseBuffer {
    const content: bytes
    var offset: nat
    var depth: nat
    const hooks: Hooks
    /** strtod. */
    const k: Codec
    /** The refusals the hooks had counted before. */
    ghost const refusedBefore: nat

    constructor (k: Codec, content: bytes, hooks: Hooks)
      requires Terminated(content)
      ensures Ready() && offset == 0 && depth == 0 && refusedBefore == hooks.refusals
      ensures this.content == content && this.hooks == hooks && this.k == k
    {
      this.k, this.content, this.hooks, offset, depth := k, content, hooks, 0, 0;
      refusedBefore := hooks.refusals;
    }

    /** The cursor is inside the text, and the nesting limit is kept. */
    ghost predicate Ready()
      reads this`offset, this`depth, hooks
    {
      Terminated(content) && offset < |content| && depth <= Parser.NESTING_LIMIT && refusedBefore <= hooks.refusals
    }

    function Rest(): bytes
      requires offset <= |content|
      reads this`offset
    {
      content[offset..]
    }

    /**
     * The outcome of a step: it reached the value and cursor of the specification, or stopped
     * where the specification stops; it may also stop anywhere in the text for lack of memory.
     */
    ghost predicate Agrees<T>(ok: bool, o: Parser.Outcome<T>, value: T, depthBefore: nat)
      reads this`offset, this`depth, hooks
    {
      if ok then Ready() && depth == depthBefore && o == Parser.Done(value, Rest())
      else
        offset <= |content| && depth <= Parser.NESTING_LIMIT &&
        (o == Parser.Stop(|content| - offset) || hooks.refusals > refusedBefore)
    }

    /** The same for parse_string, whose result is the text up to its first NUL. */
    ghost predicate StringAgrees(ok: bool, o: Parser.Outcome<bytes>, filled: Item)
      reads this`offset, this`depth, hooks
    {
      if ok then
        Ready() && o.Done? && o.rest == Rest() &&
        filled.kind == StringKind && filled.valuestring.Some? && filled.valuestring.value.chars == CString(o.value)
      else offset <= |content| && (o == Parser.Stop(|content| - offset) || hooks.refusals > refusedBefore)
    }

    /** buffer_skip_whitespace. */
    method SkipWhitespace()
      requires Ready()
      modifies this`offset
      ensures Ready() && offset >= old(offset) && Rest() == Parser.SkipWhitespace(old(Rest()))
    {
      ghost var start := offset;
      while offset < |content| && content[offset] <= SPACE
        invariant start <= offset <= |content|
        invariant offset < |content| ==>
                  Parser.SkipWhitespace(content[start..]) == Parser.SkipWhitespace(content[offset..])
        invariant offset == |content| ==> Parser.SkipWhitespace(content[start..]) == content[offset - 1..]
      {
        assert content[offset..][1..] == content[offset + 1..];
        offset := offset + 1;
      }
      if offset == |content| {
        offset := offset - 1;
      }
    }

    /** skip_utf8_bom. */
    method SkipUtf8Bom()
      requires Ready() && offset == 0
      modifies this`offset
      ensures Ready() && Rest() == Parser.SkipMark(content)
    {
      if offset + 4 < |content| && content[offset..offset + 3] == BYTE_ORDER_MARK {
        offset := offset + 3;
      }
      assert content[0..] == content;
    }

    /** parse_number: at most 63 number bytes are copied out for strtod. */
    method ParseNumber(item: Item) returns (ok: bool, filled: Item)
      requires Ready() && NumberStart(content[offset]) && Empty(item)
      modifies this`offset
      ensures Filled(hooks, ok, item, filled, hooks.live)
      ensures Agrees(ok, Parser.ParseNumber(k, old(Rest())), Meaning(filled), old(depth))
    {
      hide Parser.ParseNumber, Parser.NumberRun;
      BareOwnsNothing(item);
      filled := item;
      Parser.NumberAdvances(k, Rest());
      var numberString := new byte[64];
      var i := CopyNumber(numberString);
      numberString[i] := NUL;
      NumberOutcome(k, content, offset, numberString[..i]);
      var (used, number) := k.strtod(numberString[..i]);
      ok := used != 0;
      if ok {
        filled := item.(kind := NumberKind, valuedouble := number, valueint := SaturatedInt(number));
        SaturatedIsCutOff(number);
        BareOwnsNothing(filled);
        offset := offset + used;
      }
    }

    /** Its copying loop. */
    method CopyNumber(numberString: array<byte>) returns (i: nat)
      requires Ready() && numberString.Length == 64
      modifies numberString
      ensures i == Parser.NumberRun(Rest(), Parser.NUMBER_BUFFER) && numberString[..i] == Rest()[..i]
    {
      hide Parser.NumberRun, NumberByte, Copying;
      i := 0;
      CopyingStarts(content, offset);
      while i < numberString.Length - 1 && offset + i < |content| && NumberByte(content[offset + i])
        invariant i <= Parser.NUMBER_BUFFER && offset + i <= |content| && Copying(content, offset, i)
        invariant forall j :: 0 <= j < i ==> numberString[j] == content[offset + j]
      {
        CopyingStep(content, offset, i);
        numberString[i] := content[offset + i];
        i := i + 1;
      }
      CopyingEnds(content, offset, i);
    }

    // ----- parse_string -----

    /** The sizing loop: the end of the literal that starts at `start`, and the escapes in it. */
    method ScanString(start: nat) returns (found: bool, end: nat, skipped: nat)
      requires start <= |content|
      ensures found <==> Parser.ScanLiteral(content[start..]).Some?
      ensures found ==> start <= end < |content| && Parser.ScanLiteral(content[start..]) == Some(end - start)
      ensures found ==> skipped == Unescaping.EscapePairs(content[start..end])
    {
      hide Parser.ScanLiteral, Unescaping.EscapePairs, Scanning;
      end, skipped := start, 0;
      ScanningStarts(content, start);
      while end < |content| && content[end] != QUOTE
        invariant start <= end <= |content| && Scanning(content, start, end, skipped)
        decreases |content| - end
      {
        if content[end] == BACKSLASH {
          if end + 1 >= |content| {
            ScanningEnds(content, start, end, skipped);
            return false, end, skipped;
          }
          ScanningStep(content, start, end, skipped, 2);
          skipped := skipped + 1;
          end := end + 1;
        } else {
          ScanningStep(content, start, end, skipped, 1);
        }
        end := end + 1;
      }
      ScanningEnds(content, start, end, skipped);
      found := end < |content|;
    }

    /** parse_string: a block of the counted size receives the text, or is freed again. */
    method ParseString(item: Item) returns (ok: bool, filled: Item)
      requires Ready() && Empty(item)
      modifies this`offset, hooks
      ensures Filled(hooks, ok, item, filled, old(hooks.live))
      ensures StringAgrees(ok, Parser.ParseString(old(Rest())), filled) && filled.kids == []
    {
      hide Parser.ParseString, Parser.ScanLiteral, Parser.Unescape, Unescaping.EscapePairs, CString, Filled;
      NothingFilled(hooks, item);
      filled := item;
      var start := offset + 1;
      if content[offset] != QUOTE {
        NoStringOutcome(content, offset);
        offset := start;
        return false, item;
      }
      var found, end, skipped := ScanString(start);
      if !found {
        NoStringOutcome(content, offset);
        offset := start;
        return false, item;
      }
      var block := hooks.Allocate();
      if block == None {
        offset := start;
        NothingFilled(hooks, item);
        return false, item;
      }
      var body := content[start..end];
      StringOutcome(content, offset, end);
      Unescaping.PairsAtMost(body);
      var output := new byte[1 + |body| - skipped + 1];
      var p, at;
      ok, p, at := Unescaping.WriteBody(body, output);
      if ok {
        output[at] := NUL;
        CStringPrefix(output[..], at);
        assert output[..][..at] == output[..at];
        var text := Text(block.value, CString(output[..]));
        TextFilled(hooks, item, text, old(hooks.live));
        filled := item.(kind := StringKind, valuestring := Some(text));
        offset := end + 1;
      } else {
        hooks.Deallocate(block.value);
        offset := start + p;
        NothingFilled(hooks, item);
      }
    }

    // ----- values -----

    /** parse_value. */
    method ParseValue(item: Item) returns (ok: bool, filled: Item)
      requires Ready() && Empty(item)
      modifies this`offset, this`depth, hooks
      ensures Filled(hooks, ok, item, filled, old(hooks.live))
      ensures Agrees(ok, Parser.ParseValue(k, old(Rest()), old(depth)), Meaning(filled), old(depth))
      ensures ok ==> offset > old(offset)
      decreases |content| - offset, 4
    {
      hide Parser.ParseValue, Parser.ParseArray, Parser.ParseObject, Parser.ParseNumber, Parser.ParseString, CString,
          Filled, NumberStart;
      hide Parser.StartsWith;
      ValueOutcome(k, Rest(), depth);
      NothingFilled(hooks, item);
      ok, filled := false, item;
      if Reads(NULL_TEXT) || Reads(FALSE_TEXT) || Reads(TRUE_TEXT) {
        ok, filled := ParseKeyword(item);
      } else if content[offset] == QUOTE {
        ok, filled := ParseString(item);
      } else if NumberStart(content[offset]) {
        ok, filled := ParseNumber(item);
      } else if content[offset] == LBRACKET {
        ok, filled := ParseArray(item);
      } else if content[offset] == LBRACE {
        ok, filled := ParseObject(item);
      }
    }

    /** The three words. */
    method ParseKeyword(item: Item) returns (ok: bool, filled: Item)
      requires Ready() && Empty(item)
      requires Reads(NULL_TEXT) || Reads(FALSE_TEXT) || Reads(TRUE_TEXT)
      modifies this`offset
      ensures Agrees(ok, Parser.ParseValue(k, old(Rest()), depth), Meaning(filled), depth)
      ensures ok && offset > old(offset) && Filled(hooks, ok, item, filled, old(hooks.live))
    {
      hide Parser.ParseValue, Parser.StartsWith, Parser.Sound, Filled, Reads, Meaning;
      ValueOutcome(k, Rest(), depth);
      if Reads(NULL_TEXT) {
        ok, filled := Keyword(item, NULL_TEXT, NullKind, item.valueint);
      } else if Reads(FALSE_TEXT) {
        ok, filled := Keyword(item, FALSE_TEXT, FalseKind, item.valueint);
      } else {
        ok, filled := Keyword(item, TRUE_TEXT, TrueKind, 1);
      }
      WordMeaning(filled);
    }

    lemma WordMeaning(item: Item)
      ensures item.kind == NullKind ==> Meaning(item) == Null
      ensures item.kind == FalseKind ==> Meaning(item) == False
      ensures item.kind == TrueKind ==> Meaning(item) == True
    {
    }

    /** can_read and strncmp. */
    predicate Reads(word: bytes)
      requires offset <= |content|
      reads this`offset
      ensures Reads(word) <==> Parser.StartsWith(Rest(), word)
    {
      offset + |word| <= |content| && content[offset..offset + |word|] == word
    }

    /** null, false and true. */
    method Keyword(item: Item, word: bytes, kind: Kind, valueint: int) returns (ok: bool, filled: Item)
      requires Ready() && Empty(item) && Reads(word) && |word| > 0 && word[|word| - 1] != NUL
      requires kind == NullKind || kind == FalseKind || kind == TrueKind
      requires valueint == if kind == TrueKind then 1 else 0
      modifies this`offset
      ensures ok && Ready() && depth == old(depth) && offset > old(offset)
      ensures Filled(hooks, ok, item, filled, old(hooks.live))
      ensures Rest() == old(Rest())[|word|..] && filled.kind == kind
    {
      assert content[offset..offset + |word|][|word| - 1] == content[offset + |word| - 1];
      ok, filled := true, item.(kind := kind, valueint := valueint);
      BareOwnsNothing(filled);
      offset := offset + |word|;
    }

    // ----- arrays -----

    /** parse_array on an opening bracket. */
    method ParseArray(item: Item) returns (ok: bool, filled: Item)
      requires Ready() && Empty(item) && content[offset] == LBRACKET
      modifies this`offset, this`depth, hooks
      ensures Filled(hooks, ok, item, filled, old(hooks.live))
      ensures Agrees(ok, Parser.ParseArray(k, old(Rest()), old(depth)), Meaning(filled), old(depth))
      ensures ok ==> offset > old(offset)
      decreases |content| - offset, 3
    {
      hide Parser.ParseArray, Parser.ParseItems, Filled, Built, Meaning, Meanings, Owned, OwnedBy, Separate,
          SeparateAll;
      filled := item;
      if depth >= Parser.NESTING_LIMIT {
        NothingFilled(hooks, item);
        TooDeep(k, Rest(), depth);
        return false, item;
      }
      var kids;
      ok, kids := ParseArrayInside();
      ListFilled(hooks, item, ArrayKind, kids, old(hooks.live));
      if ok {
        filled := item.(kind := ArrayKind, kids := kids);
        LeaveList();
      }
    }

    /** From the opening bracket to the closing one. */
    method ParseArrayInside() returns (ok: bool, kids: seq<Item>)
      requires Ready() && content[offset] == LBRACKET && depth < Parser.NESTING_LIMIT
      modifies this`offset, this`depth, hooks
      ensures Built(hooks, kids, old(hooks.live))
      ensures if ok then
                Ready() && offset + 1 < |content| && offset > old(offset) && depth == old(depth) + 1 &&
                Parser.ParseArray(k, old(Rest()), old(depth)) ==
                Parser.Done(Array(Meanings(kids)), content[offset + 1..]) && ParsedKids(kids, false)
              else
                kids == [] && Agrees(false, Parser.ParseArray(k, old(Rest()), old(depth)), Null, old(depth))
      decreases |content| - offset, 2
    {
      hide Parser.ParseArray, Parser.ParseItems, Parser.SkipWhitespace, Built, Meanings, SeparateAll, OwnedBy;
      NothingBuilt(hooks);
      ghost var start := offset;
      EnterList();
      ArrayOutcome(k, content, start, offset, depth - 1);
      ok, kids := true, [];
      if content[offset] != RBRACKET {
        ghost var inside := Rest();
        offset := offset - 1;
        ok, kids := ParseItems(inside);
      }
    }

    /** The cursor moves behind an opening bracket and the blanks that follow. */
    method EnterList()
      requires Ready() && depth < Parser.NESTING_LIMIT && offset + 1 < |content|
      modifies this`offset, this`depth
      ensures Ready() && offset > old(offset) && depth == old(depth) + 1
      ensures Rest() == Parser.SkipWhitespace(content[old(offset) + 1..])
    {
      depth := depth + 1;
      offset := offset + 1;
      SkipWhitespace();
    }

    /** The cursor moves behind a closing bracket. */
    method LeaveList()
      requires Ready() && depth > 0 && offset + 1 < |content|
      modifies this`offset, this`depth
      ensures Ready() && offset == old(offset) + 1 && depth == old(depth) - 1 && Rest() == content[old(offset) + 1..]
    {
      depth := depth - 1;
      offset := offset + 1;
    }

    /** The loop of parse_array; the list is deleted when an element or the end is missing. */
    method ParseItems(ghost s: bytes) returns (ok: bool, kids: seq<Item>)
      requires Ready() && offset + 1 < |content| && s == content[offset + 1..]
      modifies this`offset, this`depth, hooks
      ensures Built(hooks, kids, old(hooks.live))
      ensures if ok then
                Ready() && offset + 1 < |content| && offset > old(offset) && depth == old(depth) &&
                Parser.ParseItems(k, s, depth, []) == Parser.Done(Array(Meanings(kids)), content[offset + 1..]) &&
                ParsedKids(kids, false)
              else
                kids == [] &&
                Agrees(false, Parser.ParseItems(k, s, old(depth), []), Null, old(depth))
      decreases |content| - offset, 1
    {
      hide Parser.ParseItems, Built, Meanings, Parsed;
      ghost var spec := Parser.ParseItems(k, s, depth, []);
      NothingBuilt(hooks);
      ok, kids := ParseItem([], hooks.live);
      while ok && content[offset] == COMMA
        invariant Built(hooks, kids, old(hooks.live))
        invariant ok ==>
                  Ready() && offset > old(offset) && depth == old(depth) &&
                  spec == AfterItem(k, content, offset, depth, Meanings(kids)) && ParsedKids(kids, false)
        invariant !ok ==> Agrees(false, spec, Null, old(depth))
        decreases if ok then |content| - offset + 1 else 0
      {
        ok, kids := ParseItem(kids, old(hooks.live));
      }
      if ok && content[offset] != RBRACKET {
        ok := false;
        assert Agrees(false, spec, Null, old(depth));
      }
      assert ok ==> spec == Parser.Done(Array(Meanings(kids)), content[offset + 1..]);
      if !ok {
        Abandon(hooks, kids, old(hooks.live));
        kids := [];
      }
    }

    /** One element behind the cursor, and the blanks after it. */
    method ParseItem(kids: seq<Item>, ghost liveBefore: set<Address>) returns (ok: bool, kids': seq<Item>)
      requires Ready() && offset + 1 < |content| && Built(hooks, kids, liveBefore)
      modifies this`offset, this`depth, hooks
      ensures if ok then
                Ready() && offset > old(offset) && depth == old(depth) &&
                Parser.ParseItems(k, content[old(offset) + 1..], depth, Meanings(kids)) ==
                AfterItem(k, content, offset, depth, Meanings(kids'))
              else Agrees(false, Parser.ParseItems(k, content[old(offset) + 1..], old(depth), Meanings(kids)), Null,
                old(depth))
      ensures Built(hooks, kids', liveBefore)
      ensures ok && ParsedKids(kids, false) ==> ParsedKids(kids', false)
      decreases |content| - offset, 0
    {
      hide Parser.ParseItems, Parser.ParseValue, Parser.SkipWhitespace, AfterItem, Filled, Meaning, Meanings, Owned,
          OwnedBy, Separate, SeparateAll;
      var address := hooks.Allocate();
      if address == None {
        return false, kids;
      }
      var item, node := Blank(address.value), Blank(address.value);
      BlankOwnsItself(address.value);
      assert hooks.live == liveBefore + OwnedBy(kids) + Owned(node);
      offset := offset + 1;
      ItemsOutcome(k, Rest(), depth, Meanings(kids));
      SkipWhitespace();
      ok, item := ParseValue(item);
      NodeAdded(hooks, ok, kids, node, item, liveBefore);
      Appended(kids, item);
      kids' := kids + [item];
      if ok {
        SkipWhitespace();
        AfterItemAt(k, content, offset, depth, Meanings(kids'));
      }
    }

    // ----- objects -----

    /** parse_object on an opening brace. */
    method ParseObject(item: Item) returns (ok: bool, filled: Item)
      requires Ready() && Empty(item) && content[offset] == LBRACE
      modifies this`offset, this`depth, hooks
      ensures Filled(hooks, ok, item, filled, old(hooks.live))
      ensures Agrees(ok, Parser.ParseObject(k, old(Rest()), old(depth)), Meaning(filled), old(depth))
      ensures ok ==> offset > old(offset)
      decreases |content| - offset, 3
    {
      hide Parser.ParseObject, Parser.ParseMembers, Filled, Built, Meaning, MemberMeanings, Owned, OwnedBy, Separate,
          SeparateAll;
      filled := item;
      if depth >= Parser.NESTING_LIMIT {
        NothingFilled(hooks, item);
        TooDeep(k, Rest(), depth);
        return false, item;
      }
      var kids;
      ok, kids := ParseObjectInside();
      ListFilled(hooks, item, ObjectKind, kids, old(hooks.live));
      if ok {
        filled := item.(kind := ObjectKind, kids := kids);
        LeaveList();
      }
    }

    /** From the opening brace to the closing one. */
    method ParseObjectInside() returns (ok: bool, kids: seq<Item>)
      requires Ready() && content[offset] == LBRACE && depth < Parser.NESTING_LIMIT
      modifies this`offset, this`depth, hooks
      ensures Built(hooks, kids, old(hooks.live))
      ensures if ok then
                Ready() && offset + 1 < |content| && offset > old(offset) && depth == old(depth) + 1 &&
                Parser.ParseObject(k, old(Rest()), old(depth)) ==
                Parser.Done(Object(MemberMeanings(kids)), content[offset + 1..]) && ParsedKids(kids, true)
              else
                kids == [] && Agrees(false, Parser.ParseObject(k, old(Rest()), old(depth)), Null, old(depth))
      decreases |content| - offset, 2
    {
      hide Parser.ParseObject, Parser.ParseMembers, Parser.SkipWhitespace, Built, MemberMeanings, SeparateAll, OwnedBy;
      NothingBuilt(hooks);
      ghost var start := offset;
      EnterList();
      ObjectOutcome(k, content, start, offset, depth - 1);
      ok, kids := true, [];
      if content[offset] != RBRACE {
        ghost var inside := Rest();
        offset := offset - 1;
        ok, kids := ParseMembers(inside);
      }
    }

    /** The loop of parse_object; the list is deleted when a member or the end is missing. */
    method ParseMembers(ghost s: bytes) returns (ok: bool, kids: seq<Item>)
      requires Ready() && offset + 1 < |content| && s == content[offset + 1..]
      modifies this`offset, this`depth, hooks
      ensures Built(hooks, kids, old(hooks.live))
      ensures if ok then
                Ready() && offset + 1 < |content| && offset > old(offset) && depth == old(depth) &&
                Parser.ParseMembers(k, s, depth, []) ==
                Parser.Done(Object(MemberMeanings(kids)), content[offset + 1..]) && ParsedKids(kids, true)
              else
                kids == [] &&
                Agrees(false, Parser.ParseMembers(k, s, old(depth), []), Null, old(depth))
      decreases |content| - offset, 1
    {
      hide Parser.ParseMembers, Built, MemberMeanings, Parsed;
      ghost var spec := Parser.ParseMembers(k, s, depth, []);
      NothingBuilt(hooks);
      ok, kids := ParseMember([], hooks.live);
      while ok && content[offset] == COMMA
        invariant Built(hooks, kids, old(hooks.live))
        invariant ok ==>
                  Ready() && offset > old(offset) && depth == old(depth) &&
                  spec == AfterMember(k, content, offset, depth, MemberMeanings(kids)) && ParsedKids(kids, true)
        invariant !ok ==> Agrees(false, spec, Null, old(depth))
        decreases if ok then |content| - offset + 1 else 0
      {
        ok, kids := ParseMember(kids, old(hooks.live));
      }
      if ok && content[offset] != RBRACE {
        ok := false;
        assert Agrees(false, spec, Null, old(depth));
      }
      assert ok ==> spec == Parser.Done(Object(MemberMeanings(kids)), content[offset + 1..]);
      if !ok {
        Abandon(hooks, kids, old(hooks.live));
        kids := [];
      }
    }

    /** One member behind the cursor, and the blanks after it. */
    method ParseMember(kids: seq<Item>, ghost liveBefore: set<Address>) returns (ok: bool, kids': seq<Item>)
      requires Ready() && offset + 1 < |content| && Built(hooks, kids, liveBefore)
      modifies this`offset, this`depth, hooks
      ensures if ok then
                Ready() && offset > old(offset) && depth == old(depth) &&
                Parser.ParseMembers(k, content[old(offset) + 1..], depth, MemberMeanings(kids)) ==
                AfterMember(k, content, offset, depth, MemberMeanings(kids'))
              else Agrees(false, Parser.ParseMembers(k, content[old(offset) + 1..], old(depth), MemberMeanings(kids)),
                Null, old(depth))
      ensures Built(hooks, kids', liveBefore)
      ensures ok && ParsedKids(kids, true) ==> ParsedKids(kids', true)
      decreases |content| - offset, 0
    {
      hide Parser.ParseMembers, Parser.ParseMember, Parser.SkipWhitespace, AfterMember;
      hide Filled, Meaning, MemberMeanings, Owned, OwnedBy, Separate, SeparateAll;
      ghost var before := hooks.live;
      var address := hooks.Allocate();
      if address == None {
        return false, kids;
      }
      offset := offset + 1;
      ghost var s := Rest();
      MembersOutcome(k, s, depth, MemberMeanings(kids));
      SkipWhitespace();
      var item;
      ghost var node;
      ok, item, node := ParseField(Blank(address.value), s);
      NamedOwns(node);
      assert before + {address.value} + Block(node.name) == liveBefore + OwnedBy(kids) + Owned(node);
      NodeAdded(hooks, ok, kids, node, item, liveBefore);
      Appended(kids, item);
      kids' := kids + [item];
      if ok {
        SkipWhitespace();
        AfterMemberAt(k, content, offset, depth, MemberMeanings(kids'));
      }
    }

    /**
     * The name and value of a member. `node` is the node once it has its key.
     */
    method ParseField(item: Item, ghost s: bytes) returns (ok: bool, filled: Item, ghost node: Item)
      requires Ready() && Empty(item) && item.name == None
      requires Terminated(s) && Rest() == Parser.SkipWhitespace(s)
      modifies this`offset, this`depth, hooks
      ensures Empty(node) && node.address == item.address && (ok ==> node.name.Some?)
      ensures Block(node.name) !! old(hooks.live)
      ensures Filled(hooks, ok, node, filled, old(hooks.live) + Block(node.name))
      ensures Agrees(ok, Parser.ParseMember(k, s, old(depth)), Member(Chars(filled.name), Meaning(filled)), old(depth))
      ensures ok ==> offset > old(offset)
      decreases |content| - offset, 5
    {
      hide Parser.ParseMember, Parser.ParseValue, Parser.SkipWhitespace, Parser.Sound, ParseName, CString;
      hide Meaning, Filled, OwnedBy, Owned, SeparateAll, ContentBlocks;
      MemberOutcome(k, s, depth);
      ok, filled := ReadName(item);
      node := filled;
      NothingFilled(hooks, node);
      if ok {
        ok, filled := ParseValue(filled);
        SameName(hooks, ok, node, filled, old(hooks.live) + Block(node.name));
      }
    }

    lemma SameName(hooks: Hooks, ok: bool, node: Item, filled: Item, live: set<Address>)
      requires Filled(hooks, ok, node, filled, live)
      ensures filled.name == node.name
    {
    }

    /** The name of a member up to its value: parse_string, whose result becomes the key, and the colon. */
    method ReadName(item: Item) returns (ok: bool, named: Item)
      requires Ready() && Empty(item) && item.name == None
      modifies this`offset, hooks
      ensures Empty(named) && named.address == item.address && (ok ==> named.name.Some?)
      ensures hooks.live == old(hooks.live) + Block(named.name) && Block(named.name) !! old(hooks.live)
      ensures var o := ParseName(old(Rest()));
              if ok then
                Ready() && offset > old(offset) && o.Done? && o.rest == Rest() &&
                Chars(named.name) == Some(CString(o.value))
              else offset <= |content| && (o == Parser.Stop(|content| - offset) || hooks.refusals > refusedBefore)
    {
      hide Parser.ParseString, Parser.SkipWhitespace, CString, Filled, Empty, Block, Meaning, Owned, OwnedBy, Separate,
          SeparateAll;
      Parser.ParseStringAdvances(Rest());
      ok, named := ParseString(item);
      TextBecomesName(hooks, ok, item, named, old(hooks.live));
      if ok {
        SkipWhitespace();
        named := named.(name := named.valuestring, valuestring := None);
        if content[offset] != COLON {
          ok := false;
        } else {
          offset := offset + 1;
          SkipWhitespace();
        }
      }
    }
  }

  // ----- cJSON_ParseWithOpts -----

  /**
   * cJSON_ParseWithOpts: the value the text denotes as a tree of new blocks, or nothing allocated
   * and the error position, which is where the parse stopped, but inside the block. `end` is
   * *return_parse_end and `error` the global error position.
   */
  method ParseWithOpts(k: Codec, hooks: Hooks, value: Option<bytes>, requireNullTerminated: bool)
    returns (item: Option<Item>, end: Option<nat>, error: Option<nat>)
    requires (value.Some? ==> NulFree(value.value))
    modifies hooks
    ensures value == None ==> item == None && end == None && error == None
    ensures item == None ==> hooks.live == old(hooks.live)
    ensures item.Some? ==>
              Separate(item.value) && Owned(item.value) !! old(hooks.live) &&
              hooks.live == old(hooks.live) + Owned(item.value)
    ensures item.Some? ==> Parsed(item.value) && item.value.name == None
    ensures value.Some? ==>
              var content := value.value + [NUL];
              var o := Parser.Parse(k, content, requireNullTerminated);
              if item.Some? then
                o.Done? && o.value == Meaning(item.value) && end.Some? && end.value <= |value.value| &&
                o.rest == content[end.value..] && error == None
              else
                error == end && end.Some? && end.value <= |value.value| &&
                (hooks.refusals > old(hooks.refusals) ||
                 (o.Stop? && end.value == if o.left > 0 then |content| - o.left else |value.value|))
  {
    hide Parser.Parse, Parser.ParseValue, Filled, Meaning, Separate, SeparateAll, OwnedBy, Owned;
    item, end, error := None, None, None;
    if value == None {
      return;
    }
    var buffer := new ParseBuffer(k, value.value + [NUL], hooks);
    var node := NewItem(hooks);
    var ok := false;
    if node.Some? {
      BlankOwnsItself(node.value.address);
      var root := node.value;
      var filled;
      ok, filled := ParseRoot(buffer, root, requireNullTerminated);
      RootOwned(hooks, root, filled, old(hooks.live));
      if ok {
        return Some(filled), Some(buffer.offset), None;
      }
      Delete(hooks, [filled]);
    }
    var position := if buffer.offset < |buffer.content| then buffer.offset else |buffer.content| - 1;
    return None, Some(position), Some(position);
  }

  /** cJSON_New_Item. */
  method NewItem(hooks: Hooks) returns (item: Option<Item>)
    modifies hooks
    ensures item == None ==> hooks.live == old(hooks.live) && hooks.refusals == old(hooks.refusals) + 1
    ensures item.Some? ==>
              item.value == Blank(item.value.address) && item.value.address !in old(hooks.live) &&
              hooks.live == old(hooks.live) + {item.value.address} && hooks.refusals == old(hooks.refusals)
  {
    var address := hooks.Allocate();
    item := if address == None then None else Some(Blank(address.value));
  }

  lemma RootOwned(hooks: Hooks, node: Item, filled: Item, liveBefore: set<Address>)
    requires node == Blank(node.address) && node.address !in liveBefore
    requires Holds(hooks, node, filled, liveBefore + {node.address})
    ensures Separate(filled) && Owned(filled) !! liveBefore && hooks.live == liveBefore + Owned(filled)
    ensures SeparateAll([filled]) && OwnedBy([filled]) == Owned(filled)
  {
    BlankOwnsItself(node.address);
    NothingBuilt(hooks);
    Appended([], filled);
    assert [] + [filled] == [filled];
  }

  /** The parse of the whole text into the root node. */
  method ParseRoot(buffer: ParseBuffer, root: Item, requireNullTerminated: bool) returns (ok: bool, filled: Item)
    requires buffer.Ready() && buffer.offset == 0 && buffer.depth == 0 && Empty(root)
    modifies buffer, buffer.hooks
    ensures Holds(buffer.hooks, root, filled, old(buffer.hooks.live)) && (ok ==> Parsed(filled))
    ensures var o := Parser.Parse(buffer.k, buffer.content, requireNullTerminated);
            if ok then buffer.offset < |buffer.content| && o == Parser.Done(Meaning(filled), buffer.Rest())
            else
              buffer.offset <= |buffer.content| &&
              (o == Parser.Stop(|buffer.content| - buffer.offset) || buffer.hooks.refusals > buffer.refusedBefore)
  {
    hide Parser.ParseValue, Parser.SkipWhitespace, Parser.SkipMark, Parser.Sound, Holds, Parsed, Meaning, Separate,
        SeparateAll, Owned, OwnedBy;
    buffer.SkipUtf8Bom();
    buffer.SkipWhitespace();
    ok, filled := buffer.ParseValue(root);
    if ok && requireNullTerminated {
      buffer.SkipWhitespace();
      ok := buffer.offset < |buffer.content| && buffer.content[buffer.offset] == NUL;
    }
  }
}
