/** Minify on printed text: when it turns formatted output into unformatted output. */
module MinifiedPrint {
  import opened Bytes
  import opened Values
  import opened Syntax
  import opened Language
  import opened Renderer
  import opened RoundTrip
  import opened Minifier
  import opened Minification

  // ----- strings that end in a backslash -----

  /** No string or key of the tree ends in a backslash. */
  predicate NoFinalBackslash(j: Json)
    decreases j
  {
    match j
    case String(text) => !EndsInBackslash(text)
    case Array(items) => NoFinalBackslashItems(items)
    case Object(members) => NoFinalBackslashMembers(members)
    case _ => true
  }

  predicate EndsInBackslash(text: Option<bytes>) {
    text.Some? && |text.value| > 0 && text.value[|text.value| - 1] == BACKSLASH
  }

  predicate NoFinalBackslashItems(items: seq<Json>)
    decreases items
  {
    |items| == 0 || (NoFinalBackslash(items[0]) && NoFinalBackslashItems(items[1..]))
  }

  predicate NoFinalBackslashMember(m: Member)
    decreases m
  {
    !EndsInBackslash(m.key) && NoFinalBackslash(m.value)
  }

  predicate NoFinalBackslashMembers(members: seq<Member>)
    decreases members
  {
    |members| == 0 || (NoFinalBackslashMember(members[0]) && NoFinalBackslashMembers(members[1..]))
  }

  lemma BodyEnd(text: Option<bytes>)
    ensures EndsInEscapedBackslash(Body(text)) <==> EndsInBackslash(text)
  {
    EscapedEnd(Present(text));
  }

  lemma {:induction false} WrittenClean(k: Codec, j: Json, format: bool, depth: nat)
    ensures Clean(Written(k, j, format, depth)) <==> NoFinalBackslash(j)
    decreases j
  {
    hide WrittenItems, WrittenMembers, CleanItems, CleanEntries, NoFinalBackslashItems, NoFinalBackslashMembers, Body,
        EndsInEscapedBackslash;
    match j
    case String(text) => BodyEnd(text);
    case Array(items) => WrittenItemsClean(k, items, format, depth + 1, true);
    case Object(members) => WrittenMembersClean(k, members, format, depth + 1);
    case _ =>
  }

  lemma {:induction false} WrittenItemsClean(k: Codec, items: seq<Json>, format: bool, depth: nat, first: bool)
    ensures CleanItems(WrittenItems(k, items, format, depth, first)) <==> NoFinalBackslashItems(items)
    decreases items
  {
    if |items| > 0 {
      WrittenClean(k, items[0], format, depth);
      WrittenItemsClean(k, items[1..], format, depth, false);
      WrittenItemsCons(k, items, format, depth, first);
    }
  }

  lemma {:induction false} WrittenMemberClean(k: Codec, m: Member, format: bool, depth: nat, last: bool)
    ensures CleanEntry(WrittenMember(k, m, format, depth, last)) <==> NoFinalBackslashMember(m)
    decreases m
  {
    BodyEnd(m.key);
    WrittenClean(k, m.value, format, depth);
  }

  lemma {:induction false} WrittenMembersClean(k: Codec, members: seq<Member>, format: bool, depth: nat)
    ensures CleanEntries(WrittenMembers(k, members, format, depth)) <==> NoFinalBackslashMembers(members)
    decreases members
  {
    if |members| > 0 {
      WrittenMemberClean(k, members[0], format, depth, |members| == 1);
      WrittenMembersClean(k, members[1..], format, depth);
      WrittenMembersCons(k, members, format, depth);
    }
  }

  lemma {:induction false} SqueezeRemovable(blanks: bytes)
    requires forall i :: 0 <= i < |blanks| ==> Removable(blanks[i])
    ensures Squeeze(blanks) == []
  {
    if |blanks| > 0 {
      SqueezeRemovable(blanks[1..]);
    }
  }

  lemma SqueezeLayout(format: bool, depth: nat)
    ensures Squeeze(Newline(format) + Indent(format, depth)) == [] && Squeeze(Gap(format, TAB)) == [] &&
            Squeeze(Gap(format, SPACE)) == []
  {
    SqueezeRemovable(Newline(format) + Indent(format, depth));
    SqueezeRemovable(Gap(format, TAB));
    SqueezeRemovable(Gap(format, SPACE));
  }

  lemma SqueezeNothing()
    ensures Squeeze([]) == []
  {
  }

  /** Stripping the formatted layout leaves the unformatted one. */
  lemma {:induction false} StripWritten(k: Codec, j: Json, depth: nat)
    ensures Strip(Written(k, j, true, depth)) == Written(k, j, false, depth)
    decreases j
  {
    hide WrittenItems, WrittenMembers, StripItems, StripEntries, Body, Squeeze;
    match j
    case Array(items) =>
      StripWrittenItems(k, items, depth + 1, true);
      SqueezeNothing();
    case Object(members) =>
      StripWrittenMembers(k, members, depth + 1);
      SqueezeLayout(true, depth);
      WrittenObject(k, j, true, depth);
      WrittenObject(k, j, false, depth);
    case _ =>
  }

  lemma {:induction false} StripWrittenItems(k: Codec, items: seq<Json>, depth: nat, first: bool)
    ensures StripItems(WrittenItems(k, items, true, depth, first)) == WrittenItems(k, items, false, depth, first)
    decreases items
  {
    if |items| > 0 {
      StripWritten(k, items[0], depth);
      StripWrittenItems(k, items[1..], depth, false);
      WrittenItemsCons(k, items, true, depth, first);
      SqueezeLayout(true, depth);
    }
  }

  lemma {:induction false} StripWrittenMember(k: Codec, m: Member, depth: nat, last: bool)
    ensures StripEntry(WrittenMember(k, m, true, depth, last)) == WrittenMember(k, m, false, depth, last)
    decreases m
  {
    SqueezeLayout(true, depth);
    if depth > 0 { SqueezeLayout(true, depth - 1); }
    StripWritten(k, m.value, depth);
  }

  lemma {:induction false} StripWrittenMembers(k: Codec, members: seq<Member>, depth: nat)
    ensures StripEntries(WrittenMembers(k, members, true, depth)) == WrittenMembers(k, members, false, depth)
    decreases members
  {
    if |members| > 0 {
      StripWrittenMember(k, members[0], depth, |members| == 1);
      StripWrittenMembers(k, members[1..], depth);
      WrittenMembersCons(k, members, true, depth);
    }
  }

  /** A value without such strings, in front of anything. */
  lemma MinifyClean(k: Codec, j: Json, depth: nat, rest: bytes)
    requires Pure(j) && NoNul(j) && ExactPrinting(k) && NoFinalBackslash(j)
    ensures Minify(Render(k, j, true, depth) + rest) == Render(k, j, false, depth) + Minify(rest)
  {
    hide Pure, NoNul, NoFinalBackslash, Written, Render, Put, Strip, Clean, Lexical, Minify, ExactPrinting;
    var w := Written(k, j, true, depth);
    WrittenDenotes(k, j, true, depth, 0);
    WrittenClean(k, j, true, depth);
    MinifyPut(w, rest);
    StripWritten(k, j, depth);
    WrittenText(k, j, true, depth, rest);
    WrittenText(k, j, false, depth, Minify(rest));
  }

  // ----- texts that come apart -----

  /** At some position both texts have bytes, and different ones. */
  predicate Differ(a: bytes, b: bytes) {
    |a| > 0 && |b| > 0 && (a[0] != b[0] || Differ(a[1..], b[1..]))
  }

  /** The same, and up to that position `a` has neither quotes nor backslashes. */
  predicate Parts(a: bytes, b: bytes) {
    |a| > 0 && |b| > 0 && PlainByte(a[0]) && (a[0] != b[0] || Parts(a[1..], b[1..]))
  }

  lemma {:induction false} DifferIsUnequal(a: bytes, b: bytes)
    requires Differ(a, b)
    ensures a != b
  {
    if a[0] == b[0] {
      DifferIsUnequal(a[1..], b[1..]);
    }
  }

  lemma {:induction false} DifferBehind(p: bytes, a: bytes, b: bytes)
    requires Differ(a, b)
    ensures Differ(p + a, p + b)
  {
    if |p| == 0 {
      NoPrefix(a);
      NoPrefix(b);
    } else {
      DifferBehind(p[1..], a, b);
      assert (p + a)[1..] == p[1..] + a && (p + b)[1..] == p[1..] + b;
    }
  }

  lemma PartsAtOnce(x: byte, a: bytes, b: bytes)
    requires PlainByte(x) && |b| > 0 && b[0] != x
    ensures Parts([x] + a, b)
  {
  }

  lemma PartsBehind(x: byte, a: bytes, b: bytes)
    requires PlainByte(x) && Parts(a, b)
    ensures Parts([x] + a, [x] + b)
  {
    assert ([x] + a)[1..] == a && ([x] + b)[1..] == b;
  }

  /** What minify_string copies of `a` shows where it parts from `b`. */
  lemma {:induction false} RunParts(a: bytes, b: bytes, more: bytes)
    requires Parts(a, b)
    ensures Differ(a[..QuotedRun(a)] + more, b)
  {
    var n := QuotedRun(a);
    RunOverPlain(a[0], a[1..]);
    assert a == [a[0]] + a[1..];
    assert (a[..n] + more)[1..] == a[1..][..n - 1] + more;
    if a[0] == b[0] {
      RunParts(a[1..], b[1..], more);
    }
  }

  // ----- a literal that runs on -----

  lemma BodyAndMore(body: bytes, rest: bytes, n: nat)
    requires n <= |rest|
    ensures var inner := body + ([QUOTE] + rest);
            inner[..|body| + 1 + n] == body + ([QUOTE] + rest[..n]) && inner[|body| + 1 + n..] == rest[n..]
  {
  }

  lemma MinifyRunsOn(body: bytes, rest: bytes)
    requires ClosedBody(body) && EndsInEscapedBackslash(body)
    ensures Minify(PutLiteral(body, rest)) ==
            PutLiteral(body, rest[..QuotedRun(rest)] + Minify(rest[QuotedRun(rest)..]))
  {
    hide Minify, QuotedRun, EndsInEscapedBackslash;
    var n := QuotedRun(rest);
    var more := Minify(rest[n..]);
    LiteralRun(body, rest);
    MinifyQuoted(body + ([QUOTE] + rest));
    BodyAndMore(body, rest, n);
    Nest3(body, [QUOTE], rest[..n], more);
  }

  lemma LiteralBreaks(text: Option<bytes>, rest: bytes, rest': bytes)
    requires NoNulText(text) && EndsInBackslash(text) && Parts(rest, rest')
    ensures Differ(Minify(RenderString(text) + rest), RenderString(text) + rest')
  {
    hide Minify, QuotedRun, RenderString, Differ, Parts, EndsInBackslash, Body;
    StringText(text, rest);
    StringText(text, rest');
    BodyEnd(text);
    BodyCloses(text);
    MinifyRunsOn(Body(text), rest);
    var copied := rest[..QuotedRun(rest)] + Minify(rest[QuotedRun(rest)..]);
    RunParts(rest, rest', Minify(rest[QuotedRun(rest)..]));
    var p := [QUOTE] + (Body(text) + [QUOTE]);
    DifferBehind(p, copied, rest');
    LiteralFront(Body(text), copied);
    LiteralFront(Body(text), rest');
  }

  lemma LiteralFront(body: bytes, rest: bytes)
    ensures PutLiteral(body, rest) == ([QUOTE] + (body + [QUOTE])) + rest
  {
  }

  predicate NoNulText(text: Option<bytes>) {
    text.Some? ==> NulFree(text.value)
  }

  lemma BodyCloses(text: Option<bytes>)
    ensures ClosedBody(Body(text))
  {
    EscapeCloses(Present(text));
  }

  lemma LiteralClean(text: Option<bytes>, rest: bytes)
    requires !EndsInBackslash(text)
    ensures Minify(RenderString(text) + rest) == RenderString(text) + Minify(rest)
  {
    StringText(text, rest);
    StringText(text, Minify(rest));
    BodyEnd(text);
    BodyCloses(text);
    MinifyLiteral(Body(text), rest);
  }

  // ----- values behind which formatted and unformatted output part -----

  /** No value starts with a blank. */
  lemma ValueStarts(k: Codec, j: Json, format: bool, depth: nat)
    requires Pure(j) && ExactPrinting(k)
    ensures |Render(k, j, format, depth)| > 0 && Render(k, j, format, depth)[0] > SPACE
  {
    match j
    case Number(d) => assert d.Finite? ==> NumberText(k.format(d));
    case _ =>
  }

  lemma PartsAtValue(x: byte, k: Codec, j: Json, depth: nat, a: bytes, b: bytes)
    requires Pure(j) && ExactPrinting(k) && PlainByte(x) && x <= SPACE
    ensures Parts([x] + a, Render(k, j, false, depth) + b)
  {
    ValueStarts(k, j, false, depth);
    PartsAtOnce(x, a, Render(k, j, false, depth) + b);
  }

  /** Minify passes over a separator and the blank behind it. */
  lemma MinifyBlank(x: byte, rest: bytes)
    requires Removable(x)
    ensures Minify([x] + rest) == Minify(rest)
  {
    assert ([x] + rest)[1..] == rest;
  }

  /** The items of an array in front of `tail`: the first one, and what stands behind it. */
  function Behind(k: Codec, items: seq<Json>, format: bool, depth: nat, tail: bytes): bytes
    requires |items| > 0
  {
    if |items| == 1 then tail else [COMMA] + (Gap(format, SPACE) + (RenderItems(k, items[1..], format, depth) + tail))
  }

  lemma ItemsParts(k: Codec, items: seq<Json>, format: bool, depth: nat, tail: bytes)
    requires |items| > 0
    ensures RenderItems(k, items, format, depth) + tail ==
            Render(k, items[0], format, depth) + Behind(k, items, format, depth, tail)
  {
    if |items| > 1 {
      Nest4(Render(k, items[0], format, depth), [COMMA], Gap(format, SPACE), RenderItems(k, items[1..], format, depth),
        tail);
    }
  }

  lemma BehindParts(k: Codec, items: seq<Json>, depth: nat, tail: bytes, tail': bytes)
    requires |items| > 1 && PureItems(items) && ExactPrinting(k)
    ensures Parts(Behind(k, items, true, depth, tail), Behind(k, items, false, depth, tail'))
  {
    var a, b := RenderItems(k, items[1..], true, depth) + tail, RenderItems(k, items[1..], false, depth) + tail';
    assert Pure(items[1..][0]);
    ItemsParts(k, items[1..], false, depth, tail');
    PartsAtValue(SPACE, k, items[1..][0], depth, a, Behind(k, items[1..], false, depth, tail'));
    PartsBehind(COMMA, [SPACE] + a, b);
    NoPrefix(b);
  }

  /** Past the separator of two items. */
  lemma MinifyBehind(k: Codec, items: seq<Json>, depth: nat, tail: bytes)
    requires |items| > 1
    ensures Minify(Behind(k, items, true, depth, tail)) ==
            [COMMA] + Minify(RenderItems(k, items[1..], true, depth) + tail)
    ensures Behind(k, items, false, depth, tail) == [COMMA] + (RenderItems(k, items[1..], false, depth) + tail)
  {
    hide Minify;
    var a := RenderItems(k, items[1..], true, depth) + tail;
    MinifyByte(COMMA, [SPACE] + a);
    MinifyBlank(SPACE, a);
    NoPrefix(RenderItems(k, items[1..], false, depth) + tail);
  }

  lemma ArrayParts(k: Codec, items: seq<Json>, format: bool, depth: nat, rest: bytes)
    ensures Render(k, Array(items), format, depth) + rest ==
            [LBRACKET] + (RenderItems(k, items, format, depth + 1) + ([RBRACKET] + rest))
  {
    hide RenderItems;
    Nest3([LBRACKET], RenderItems(k, items, format, depth + 1), [RBRACKET], rest);
  }

  /**
   * A string that ends in a backslash makes Minify copy the blank with which the formatted text
   * goes on, or something in front of it: the texts come apart there.
   */
  lemma {:induction false} ValueBreaks(k: Codec, j: Json, depth: nat, rest: bytes, rest': bytes)
    requires Pure(j) && NoNul(j) && ExactPrinting(k) && !NoFinalBackslash(j) && Parts(rest, rest')
    ensures Differ(Minify(Render(k, j, true, depth) + rest), Render(k, j, false, depth) + rest')
    decreases j, 1
  {
    hide Minify, Differ, Parts, RenderItems, RenderMembers, RenderString;
    match j
    case String(text) => LiteralBreaks(text, rest, rest');
    case Array(items) =>
      ArrayParts(k, items, true, depth, rest);
      ArrayParts(k, items, false, depth, rest');
      PartsBehind(RBRACKET, rest, rest');
      ItemsBreak(k, items, depth + 1, [RBRACKET] + rest, [RBRACKET] + rest');
      MinifyByte(LBRACKET, RenderItems(k, items, true, depth + 1) + ([RBRACKET] + rest));
      DifferBehind([LBRACKET], Minify(RenderItems(k, items, true, depth + 1) + ([RBRACKET] + rest)),
                   RenderItems(k, items, false, depth + 1) + ([RBRACKET] + rest'));
    case Object(members) => ObjectBreaks(k, j, depth, rest, rest');
  }

  lemma {:induction false} ItemsBreak(k: Codec, items: seq<Json>, depth: nat, tail: bytes, tail': bytes)
    requires PureItems(items) && NoNulItems(items) && ExactPrinting(k) && !NoFinalBackslashItems(items) &&
             Parts(tail, tail')
    ensures Differ(Minify(RenderItems(k, items, true, depth) + tail), RenderItems(k, items, false, depth) + tail')
    decreases items
  {
    hide Minify, Differ, Parts, Render, RenderItems, Behind;
    ItemsParts(k, items, true, depth, tail);
    ItemsParts(k, items, false, depth, tail');
    if |items| > 1 {
      BehindParts(k, items, depth, tail, tail');
    } else {
      OneBehind(k, items, depth, tail, tail');
    }
    if NoFinalBackslash(items[0]) {
      ItemsBreak(k, items[1..], depth, tail, tail');
      PeelItem(k, items, depth, tail);
      PeelDiffers(k, items, depth, tail, tail');
    } else {
      ValueBreaks(k, items[0], depth, Behind(k, items, true, depth, tail), Behind(k, items, false, depth, tail'));
    }
  }

  lemma OneBehind(k: Codec, items: seq<Json>, depth: nat, tail: bytes, tail': bytes)
    requires |items| == 1
    ensures Behind(k, items, true, depth, tail) == tail && Behind(k, items, false, depth, tail') == tail'
  {
  }

  /** Minify past a first item without strings that end in a backslash. */
  lemma PeelItem(k: Codec, items: seq<Json>, depth: nat, tail: bytes)
    requires |items| > 1 && PureItems(items) && NoNulItems(items) && ExactPrinting(k) && NoFinalBackslash(items[0])
    ensures Minify(RenderItems(k, items, true, depth) + tail) ==
            (Render(k, items[0], false, depth) + [COMMA]) + Minify(RenderItems(k, items[1..], true, depth) + tail)
    ensures RenderItems(k, items, false, depth) + tail ==
            (Render(k, items[0], false, depth) + [COMMA]) + (RenderItems(k, items[1..], false, depth) + tail)
  {
    hide Minify, Render, RenderItems, Behind, NoFinalBackslash, Pure, NoNul, ExactPrinting;
    ItemsParts(k, items, true, depth, tail);
    ItemsParts(k, items, false, depth, tail);
    MinifyBehind(k, items, depth, tail);
    MinifyClean(k, items[0], depth, Behind(k, items, true, depth, tail));
    Nest(Render(k, items[0], false, depth), [COMMA], Minify(RenderItems(k, items[1..], true, depth) + tail));
    Nest(Render(k, items[0], false, depth), [COMMA], RenderItems(k, items[1..], false, depth) + tail);
  }

  lemma PeelDiffers(k: Codec, items: seq<Json>, depth: nat, tail: bytes, tail': bytes)
    requires |items| > 1 && PureItems(items) && NoNulItems(items) && ExactPrinting(k) && NoFinalBackslash(items[0])
    requires Differ(Minify(RenderItems(k, items[1..], true, depth) + tail),
             RenderItems(k, items[1..], false, depth) + tail')
    ensures Differ(Minify(RenderItems(k, items, true, depth) + tail), RenderItems(k, items, false, depth) + tail')
  {
    hide Minify, Differ, Render, RenderItems, NoFinalBackslash, Pure, NoNul, ExactPrinting;
    PeelItem(k, items, depth, tail);
    PeelItem(k, items, depth, tail');
    DifferBehind(Render(k, items[0], false, depth) + [COMMA],
                 Minify(RenderItems(k, items[1..], true, depth) + tail),
                 RenderItems(k, items[1..], false, depth) + tail');
  }

  // ----- objects, whose strings always have a line break behind them -----

  /** The members of an object in front of `tail`: what stands behind the first one. */
  function After(k: Codec, members: seq<Member>, format: bool, depth: nat, tail: bytes): bytes
    requires |members| > 0
  {
    Comma(|members| == 1) + (Newline(format) + (RenderMembers(k, members[1..], format, depth) + tail))
  }

  lemma MembersParts(k: Codec, members: seq<Member>, format: bool, depth: nat, tail: bytes)
    requires |members| > 0
    ensures RenderMembers(k, members, format, depth) + tail ==
            RenderMember(k, members[0], format, depth) + After(k, members, format, depth, tail)
  {
    Nest4(RenderMember(k, members[0], format, depth), Comma(|members| == 1), Newline(format),
      RenderMembers(k, members[1..], format, depth), tail);
  }

  lemma AfterParts(k: Codec, members: seq<Member>, depth: nat, tail: bytes, tail': bytes)
    requires |members| > 0 && |tail'| > 0 && tail'[0] == RBRACE
    ensures Parts(After(k, members, true, depth, tail), After(k, members, false, depth, tail'))
  {
    var a, b := RenderMembers(k, members[1..], true, depth) + tail,
        RenderMembers(k, members[1..], false, depth) + tail';
    NoPrefix(b);
    NoPrefix([NEWLINE] + a);
    if |members| == 1 {
      assert members[1..] == [];
      NoPrefix(tail');
      PartsAtOnce(NEWLINE, a, b);
    } else {
      MemberStarts(k, members[1..], depth, tail');
      PartsAtOnce(NEWLINE, a, b);
      PartsBehind(COMMA, [NEWLINE] + a, b);
    }
  }

  /** Unformatted members start with the quote of a key. */
  lemma MemberStarts(k: Codec, members: seq<Member>, depth: nat, tail: bytes)
    requires |members| > 0
    ensures var s := RenderMembers(k, members, false, depth) + tail; |s| > 0 && s[0] == QUOTE
  {
    var m := members[0];
    assert RenderString(m.key)[0] == QUOTE;
    NoPrefix(RenderString(m.key) + ([COLON] + (Gap(false, TAB) + Render(k, m.value, false, depth))));
  }

  lemma MinifyAfter(k: Codec, members: seq<Member>, depth: nat, tail: bytes)
    requires |members| > 0
    ensures Minify(After(k, members, true, depth, tail)) ==
            Comma(|members| == 1) + Minify(RenderMembers(k, members[1..], true, depth) + tail)
    ensures After(k, members, false, depth, tail) ==
            Comma(|members| == 1) + (RenderMembers(k, members[1..], false, depth) + tail)
  {
    hide Minify, RenderMembers;
    var a := RenderMembers(k, members[1..], true, depth) + tail;
    MinifyBlank(NEWLINE, a);
    NoPrefix(RenderMembers(k, members[1..], false, depth) + tail);
    if |members| == 1 {
      NoPrefix([NEWLINE] + a);
      NoPrefix(Minify(a));
    } else {
      MinifyByte(COMMA, [NEWLINE] + a);
    }
  }

  /** One member in front of `rest`, without its indentation. */
  lemma MemberParts(k: Codec, m: Member, format: bool, depth: nat, rest: bytes)
    ensures RenderMember(k, m, format, depth) + rest ==
            Indent(format, depth) +
            (RenderString(m.key) + ([COLON] + (Gap(format, TAB) + (Render(k, m.value, format, depth) + rest))))
  {
    Nest5(Indent(format, depth), RenderString(m.key), [COLON], Gap(format, TAB), Render(k, m.value, format, depth),
      rest);
  }

  lemma MinifyTabs(depth: nat, rest: bytes)
    ensures Minify(Indent(true, depth) + rest) == Minify(rest)
  {
    hide Minify, Squeeze;
    MinifyBlanks(Indent(true, depth), rest);
    SqueezeRemovable(Indent(true, depth));
    NoPrefix(Minify(rest));
  }

  lemma {:induction false} MemberBreaks(k: Codec, m: Member, depth: nat, rest: bytes, rest': bytes)
    requires PureMember(m) && NoNulMember(m) && ExactPrinting(k) && !NoFinalBackslashMember(m) && Parts(rest, rest')
    ensures Differ(Minify(RenderMember(k, m, true, depth) + rest), RenderMember(k, m, false, depth) + rest')
    decreases m
  {
    hide Minify, Differ, Parts, RenderString, Render, RenderMember, EndsInBackslash;
    var v, v' := Render(k, m.value, true, depth) + rest, Render(k, m.value, false, depth) + rest';
    var key := RenderString(m.key);
    MemberParts(k, m, true, depth, rest);
    MemberParts(k, m, false, depth, rest');
    MinifyTabs(depth, key + ([COLON] + ([TAB] + v)));
    NoPrefix(v');
    NoPrefix(key + ([COLON] + v'));
    if EndsInBackslash(m.key) {
      PartsAtValue(TAB, k, m.value, depth, v, rest');
      PartsBehind(COLON, [TAB] + v, v');
      LiteralBreaks(m.key, [COLON] + ([TAB] + v), [COLON] + v');
    } else {
      LiteralClean(m.key, [COLON] + ([TAB] + v));
      MinifyByte(COLON, [TAB] + v);
      MinifyBlank(TAB, v);
      ValueBreaks(k, m.value, depth, rest, rest');
      DifferBehind([COLON], Minify(v), v');
      DifferBehind(key, [COLON] + Minify(v), [COLON] + v');
    }
  }

  lemma MemberClean(k: Codec, m: Member, depth: nat, rest: bytes)
    requires PureMember(m) && NoNulMember(m) && ExactPrinting(k) && NoFinalBackslashMember(m)
    ensures Minify(RenderMember(k, m, true, depth) + rest) == RenderMember(k, m, false, depth) + Minify(rest)
  {
    hide Minify, RenderString, Render, RenderMember, EndsInBackslash, ExactPrinting;
    var v := Render(k, m.value, true, depth) + rest;
    var w := Render(k, m.value, false, depth) + Minify(rest);
    var key := RenderString(m.key);
    MemberParts(k, m, true, depth, rest);
    MemberParts(k, m, false, depth, Minify(rest));
    MinifyTabs(depth, key + ([COLON] + ([TAB] + v)));
    LiteralClean(m.key, [COLON] + ([TAB] + v));
    MinifyByte(COLON, [TAB] + v);
    MinifyBlank(TAB, v);
    MinifyClean(k, m.value, depth, rest);
    NoPrefix(w);
    NoPrefix(key + ([COLON] + w));
  }

  lemma {:induction false} MembersBreak(k: Codec, members: seq<Member>, depth: nat, tail: bytes, tail': bytes)
    requires PureMembers(members) && NoNulMembers(members) && ExactPrinting(k) && !NoFinalBackslashMembers(members)
    requires |tail'| > 0 && tail'[0] == RBRACE
    ensures Differ(Minify(RenderMembers(k, members, true, depth) + tail),
            RenderMembers(k, members, false, depth) + tail')
    decreases members
  {
    hide Minify, Differ, Parts, RenderMembers, RenderMember, After, NoFinalBackslashMember, PureMember, NoNulMember,
        ExactPrinting;
    MembersParts(k, members, true, depth, tail);
    MembersParts(k, members, false, depth, tail');
    AfterParts(k, members, depth, tail, tail');
    if NoFinalBackslashMember(members[0]) {
      var a, b := RenderMembers(k, members[1..], true, depth) + tail,
          RenderMembers(k, members[1..], false, depth) + tail';
      MembersBreak(k, members[1..], depth, tail, tail');
      MemberClean(k, members[0], depth, After(k, members, true, depth, tail));
      MinifyAfter(k, members, depth, tail);
      MinifyAfter(k, members, depth, tail');
      DifferBehind(Comma(|members| == 1), Minify(a), b);
      DifferBehind(RenderMember(k, members[0], false, depth), Comma(|members| == 1) + Minify(a),
        Comma(|members| == 1) + b);
    } else {
      MemberBreaks(k, members[0], depth, After(k, members, true, depth, tail), After(k, members, false, depth, tail'));
    }
  }

  lemma ObjectPieces(k: Codec, members: seq<Member>, format: bool, depth: nat, rest: bytes)
    ensures Render(k, Object(members), format, depth) + rest ==
            [LBRACE] + (Newline(format) +
              (RenderMembers(k, members, format, depth + 1) + (Indent(format, depth) + ([RBRACE] + rest))))
  {
    hide RenderMembers, Newline, Indent;
    Nest5([LBRACE], Newline(format), RenderMembers(k, members, format, depth + 1), Indent(format, depth), [RBRACE],
      rest);
  }

  lemma {:induction false} ObjectBreaks(k: Codec, j: Json, depth: nat, rest: bytes, rest': bytes)
    requires j.Object? && Pure(j) && NoNul(j) && ExactPrinting(k) && !NoFinalBackslash(j)
    ensures Differ(Minify(Render(k, j, true, depth) + rest), Render(k, j, false, depth) + rest')
    decreases j, 0
  {
    hide Minify, Differ, RenderMembers, Render, RenderObject, Indent;
    var members := j.members;
    var tail, tail' := Indent(true, depth) + ([RBRACE] + rest), Indent(false, depth) + ([RBRACE] + rest');
    var a, b := RenderMembers(k, members, true, depth + 1) + tail, RenderMembers(k, members, false, depth + 1) + tail';
    ObjectPieces(k, members, true, depth, rest);
    ObjectPieces(k, members, false, depth, rest');
    NoIndent(depth, [RBRACE] + rest');
    MembersBreak(k, members, depth + 1, tail, tail');
    MinifyByte(LBRACE, [NEWLINE] + a);
    MinifyBlank(NEWLINE, a);
    NoPrefix(b);
    DifferBehind([LBRACE], Minify(a), b);
  }

  lemma NoIndent(depth: nat, rest: bytes)
    ensures Indent(false, depth) + rest == rest
  {
    NoPrefix(rest);
  }

  // ----- whole texts -----

  /** Only the very last string, at the end of the last elements of arrays, may end in a backslash. */
  predicate Tidy(j: Json)
    decreases j
  {
    match j
    case Array(items) => TidyItems(items)
    case Object(members) => NoFinalBackslashMembers(members)
    case _ => true
  }

  predicate TidyItems(items: seq<Json>)
    decreases items
  {
    |items| == 0 ||
    if |items| == 1 then Tidy(items[0]) else NoFinalBackslash(items[0]) && TidyItems(items[1..])
  }

  /** The closing brackets at the end of the text. */
  predicate Closers(s: bytes) {
    forall i :: 0 <= i < |s| ==> s[i] == RBRACKET
  }

  lemma {:induction false} ClosersRun(s: bytes)
    requires Closers(s)
    ensures QuotedRun(s) == |s|
  {
    if |s| > 0 {
      ClosersRun(s[1..]);
      RunOverPlain(s[0], s[1..]);
      HeadTail(s);
    }
  }

  lemma ClosersStay(s: bytes)
    requires Closers(s)
    ensures Minify(s) == s
  {
    MinifyWord(s, []);
    NoPrefix(s);
  }

  lemma ClosersMore(s: bytes)
    requires Closers(s)
    ensures Closers([RBRACKET] + s)
  {
  }

  /** A string at the end: what minify_string runs on over is copied to the end. */
  lemma StringEnds(text: Option<bytes>, rest: bytes)
    requires NoNulText(text) && Closers(rest)
    ensures Minify(RenderString(text) + rest) == RenderString(text) + rest
  {
    hide Minify, QuotedRun, RenderString, EndsInBackslash, Closers;
    ClosersStay(rest);
    if EndsInBackslash(text) {
      StringText(text, rest);
      BodyEnd(text);
      BodyCloses(text);
      ClosersRun(rest);
      MinifyRunsOn(Body(text), rest);
      assert rest[..|rest|] == rest && rest[|rest|..] == [];
      MinifyOfNothing([]);
      NoPrefix(rest);
    } else {
      LiteralClean(text, rest);
    }
  }

  /** What minifying the formatted text of a value at the end gives. */
  ghost predicate Minified(tidy: bool, text: bytes, unformatted: bytes) {
    if tidy then Minify(text) == unformatted else Differ(Minify(text), unformatted)
  }

  lemma MinifiedBehind(tidy: bool, x: byte, text: bytes, unformatted: bytes)
    requires Copied(x) && Minified(tidy, text, unformatted)
    ensures Minified(tidy, [x] + text, [x] + unformatted)
  {
    hide Minify, Differ;
    MinifyByte(x, text);
    if !tidy {
      DifferBehind([x], Minify(text), unformatted);
    }
  }

  lemma {:induction false} ValueEnds(k: Codec, j: Json, depth: nat, rest: bytes)
    requires Pure(j) && NoNul(j) && ExactPrinting(k) && Closers(rest)
    ensures Minified(Tidy(j), Render(k, j, true, depth) + rest, Render(k, j, false, depth) + rest)
    decreases j, 1
  {
    hide Minify, Differ, RenderItems, RenderMembers, RenderString, RenderObject, Closers, ExactPrinting;
    match j
    case String(text) => StringEnds(text, rest);
    case Array(items) =>
      ArrayParts(k, items, true, depth, rest);
      ArrayParts(k, items, false, depth, rest);
      ClosersMore(rest);
      ItemsEnd(k, items, depth + 1, [RBRACKET] + rest);
      MinifiedBehind(Tidy(j), LBRACKET, RenderItems(k, items, true, depth + 1) + ([RBRACKET] + rest),
                     RenderItems(k, items, false, depth + 1) + ([RBRACKET] + rest));
    case _ => OtherEnds(k, j, depth, rest);
  }

  lemma OtherEnds(k: Codec, j: Json, depth: nat, rest: bytes)
    requires !j.String? && !j.Array? && Pure(j) && NoNul(j) && ExactPrinting(k) && Closers(rest)
    ensures Minified(Tidy(j), Render(k, j, true, depth) + rest, Render(k, j, false, depth) + rest)
  {
    hide Minify, Differ, Render, Closers, ExactPrinting, Pure, NoNul;
    ClosersStay(rest);
    if NoFinalBackslash(j) {
      MinifyClean(k, j, depth, rest);
    } else {
      ObjectBreaks(k, j, depth, rest, rest);
    }
  }

  lemma {:induction false} ItemsEnd(k: Codec, items: seq<Json>, depth: nat, tail: bytes)
    requires PureItems(items) && NoNulItems(items) && ExactPrinting(k) && Closers(tail)
    ensures Minified(TidyItems(items), RenderItems(k, items, true, depth) + tail,
            RenderItems(k, items, false, depth) + tail)
    decreases items
  {
    hide Minify, Differ, Parts, Render, RenderItems, Behind, Closers, NoFinalBackslash, Tidy, ExactPrinting, Pure,
        NoNul;
    ClosersStay(tail);
    if |items| == 0 {
      NoItems(k, depth, tail);
    } else {
      ItemsParts(k, items, true, depth, tail);
      ItemsParts(k, items, false, depth, tail);
      if |items| == 1 {
        OneBehind(k, items, depth, tail, tail);
        ValueEnds(k, items[0], depth, tail);
      } else if NoFinalBackslash(items[0]) {
        ItemsEnd(k, items[1..], depth, tail);
        PeelItem(k, items, depth, tail);
        if !TidyItems(items[1..]) {
          PeelDiffers(k, items, depth, tail, tail);
        }
      } else {
        BehindParts(k, items, depth, tail, tail);
        ValueBreaks(k, items[0], depth, Behind(k, items, true, depth, tail), Behind(k, items, false, depth, tail));
      }
    }
  }

  lemma NoItems(k: Codec, depth: nat, tail: bytes)
    ensures RenderItems(k, [], true, depth) + tail == tail && RenderItems(k, [], false, depth) + tail == tail
  {
    NoPrefix(tail);
  }

  /**
   * Minifying what cJSON_Print writes gives, byte for byte, what cJSON_PrintUnformatted writes,
   * exactly when no string or key but the very last string may end in a backslash.
   */
  lemma MinifyPrinted(k: Codec, j: Json)
    requires Pure(j) && NoNul(j) && ExactPrinting(k)
    ensures Minify(Render(k, j, true, 0)) == Render(k, j, false, 0) <==> Tidy(j)
  {
    hide Minify, Differ, Render, Tidy;
    ValueEnds(k, j, 0, []);
    NoPrefix(Render(k, j, true, 0));
    NoPrefix(Render(k, j, false, 0));
    if !Tidy(j) {
      DifferIsUnequal(Minify(Render(k, j, true, 0)), Render(k, j, false, 0));
    }
  }

  lemma {:induction false} CleanIsTidy(j: Json)
    requires NoFinalBackslash(j)
    ensures Tidy(j)
    decreases j
  {
    match j
    case Array(items) => CleanItemsAreTidy(items);
    case _ =>
  }

  lemma {:induction false} CleanItemsAreTidy(items: seq<Json>)
    requires NoFinalBackslashItems(items)
    ensures TidyItems(items)
    decreases items
  {
    if |items| > 0 {
      CleanIsTidy(items[0]);
      CleanItemsAreTidy(items[1..]);
    }
  }

  /** In particular when no string or key ends in a backslash. */
  lemma MinifyCleanPrint(k: Codec, j: Json)
    requires Pure(j) && NoNul(j) && ExactPrinting(k) && NoFinalBackslash(j)
    ensures Minify(Render(k, j, true, 0)) == Render(k, j, false, 0)
  {
    hide Minify, Render, Tidy, NoFinalBackslash;
    CleanIsTidy(j);
    MinifyPrinted(k, j);
  }
}
