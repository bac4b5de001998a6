/** Which of the texts the parser accepts are JSON: those with strict blanks, numbers and literals. */
module Strictness {
  import opened Bytes
  import opened Values
  import opened Parser
  import opened Syntax
  import opened Language
  import opened Recognition
  import opened Rfc8259
  import opened Unambiguous

  // ----- literals -----

  predicate StrictBody(body: bytes)
    decreases |body|
  {
    if |body| == 0 then true
    else if body[0] != BACKSLASH then body[0] >= SPACE && body[0] != QUOTE && StrictBody(body[1..])
    else if |body| < 2 then false
    else if body[1] == LOWER_U then
      |body| >= 6 && WellFormedChar(Char.Hex(body[2], body[3], body[4], body[5])) && StrictBody(body[6..])
    else WellFormedChar(Short(body[1])) && StrictBody(body[2..])
  }

  lemma {:induction false} StringIsStrict(chars: seq<Char>)
    requires WellFormedString(chars)
    ensures StrictBody(StringText(chars))
  {
    if |chars| > 0 {
      StringIsStrict(chars[1..]);
      var rest := StringText(chars[1..]);
      var body := CharText(chars[0]) + rest;
      assert body[|CharText(chars[0])|..] == rest;
    }
  }

  lemma {:induction false} StrictIsString(body: bytes) returns (chars: seq<Char>)
    requires StrictBody(body)
    ensures WellFormedString(chars) && StringText(chars) == body
    decreases |body|
  {
    if |body| == 0 {
      chars := [];
    } else {
      var c :=
        if body[0] != BACKSLASH then Unescaped(body[0])
        else if body[1] == LOWER_U then Char.Hex(body[2], body[3], body[4], body[5])
        else Short(body[1]);
      var n := |CharText(c)|;
      var more := StrictIsString(body[n..]);
      chars := [c] + more;
      assert body == CharText(c) + body[n..];
      assert chars[1..] == more;
    }
  }

  // ----- numbers -----

  function DigitRun(s: bytes): (n: nat)
    ensures n <= |s|
  {
    if |s| > 0 && Digit(s[0]) then 1 + DigitRun(s[1..]) else 0
  }

  predicate StrictNumber(s: bytes) {
    var a := if |s| > 0 && s[0] == MINUS then s[1..] else s;
    var n := DigitRun(a);
    n > 0 && (a[0] == 0x30 ==> n == 1) && StrictFraction(a[n..])
  }

  predicate StrictFraction(s: bytes) {
    if |s| > 0 && s[0] == DOT then DigitRun(s[1..]) > 0 && StrictExponent(s[1..][DigitRun(s[1..])..])
    else StrictExponent(s)
  }

  predicate StrictExponent(s: bytes) {
    |s| == 0 ||
    ((s[0] == LOWER_E || s[0] == UPPER_E) &&
     var r := if |s| > 1 && (s[1] == PLUS || s[1] == MINUS) then s[2..] else s[1..];
     |r| > 0 && DigitRun(r) == |r|)
  }

  lemma {:induction false} RunOfDigits(s: bytes)
    ensures forall i :: 0 <= i < DigitRun(s) ==> Digit(s[i])
    ensures DigitRun(s) < |s| ==> !Digit(s[DigitRun(s)])
  {
    if |s| > 0 && Digit(s[0]) {
      RunOfDigits(s[1..]);
      assert forall i :: 0 < i < DigitRun(s) ==> s[i] == s[1..][i - 1];
    }
  }

  lemma {:induction false} DigitsRun(digits: bytes, t: bytes)
    requires forall i :: 0 <= i < |digits| ==> Digit(digits[i])
    requires |t| > 0 ==> !Digit(t[0])
    ensures DigitRun(digits + t) == |digits| && (digits + t)[|digits|..] == t
  {
    if |digits| == 0 {
      assert digits + t == t;
    } else {
      DigitsRun(digits[1..], t);
      assert (digits + t)[1..] == digits[1..] + t;
    }
  }

  function ExponentText(exponent: Option<Exponent>): bytes {
    match exponent
    case None => []
    case Some(x) => [x.e] + (match x.sign case None => [] case Some(b) => [b]) + x.digits
  }

  function FractionText(fraction: bytes, rest: bytes): bytes {
    if fraction == [] then rest else [DOT] + (fraction + rest)
  }

  lemma NumberParts(n: Numeric)
    ensures var a := n.whole + FractionText(n.fraction, ExponentText(n.exponent));
            Rfc8259.NumberText(n) == if n.minus then [MINUS] + a else a
  {
    var f := if n.fraction == [] then [] else [DOT] + n.fraction;
    var x := ExponentText(n.exponent);
    if n.fraction != [] {
      Nest([DOT], n.fraction, x);
    }
    var m := if n.minus then [MINUS] else [];
    assert Rfc8259.NumberText(n) == ((m + n.whole) + f) + x;
    Nest(m + n.whole, f, x);
    Nest(m, n.whole, f + x);
  }

  lemma ExponentIsStrict(exponent: Option<Exponent>)
    requires exponent.Some? ==>
               var x := exponent.value;
               (x.e == LOWER_E || x.e == UPPER_E) && Digits(x.digits) &&
               (x.sign == None || x.sign == Some(PLUS) || x.sign == Some(MINUS))
    ensures StrictExponent(ExponentText(exponent))
  {
    if exponent.Some? {
      var x := exponent.value;
      DigitsRun(x.digits, []);
      assert x.digits + [] == x.digits;
      var s := ExponentText(exponent);
      if x.sign == None {
        assert s[1..] == x.digits;
      } else {
        assert s[2..] == x.digits && s[1] == x.sign.value;
      }
    }
  }

  lemma FractionIsStrict(fraction: bytes, rest: bytes)
    requires fraction == [] || Digits(fraction)
    requires StrictExponent(rest)
    ensures StrictFraction(FractionText(fraction, rest))
  {
    hide StrictExponent;
    ExponentStart(rest);
    if fraction != [] {
      DigitsRun(fraction, rest);
      assert FractionText(fraction, rest)[1..] == fraction + rest;
    }
  }

  lemma ExponentStart(s: bytes)
    requires StrictExponent(s)
    ensures |s| > 0 ==> !Digit(s[0]) && s[0] != DOT
  {
  }

  lemma NumberIsStrict(n: Numeric)
    requires WellFormedNumber(n)
    ensures StrictNumber(Rfc8259.NumberText(n))
  {
    hide StrictExponent, StrictFraction;
    NumberParts(n);
    ExponentIsStrict(n.exponent);
    var x := ExponentText(n.exponent);
    FractionIsStrict(n.fraction, x);
    ExponentStart(x);
    var f := FractionText(n.fraction, x);
    DigitsRun(n.whole, f);
    var a := n.whole + f;
    assert a[0] == n.whole[0];
    assert ([MINUS] + a)[1..] == a;
  }

  lemma StrictIsExponent(s: bytes) returns (exponent: Option<Exponent>)
    requires StrictExponent(s)
    ensures ExponentText(exponent) == s
    ensures exponent.Some? ==>
              var x := exponent.value;
              (x.e == LOWER_E || x.e == UPPER_E) && Digits(x.digits) &&
              (x.sign == None || x.sign == Some(PLUS) || x.sign == Some(MINUS))
  {
    if |s| == 0 {
      exponent := None;
    } else if |s| > 1 && (s[1] == PLUS || s[1] == MINUS) {
      RunOfDigits(s[2..]);
      exponent := Some(Exponent(s[0], Some(s[1]), s[2..]));
      assert s == [s[0]] + [s[1]] + s[2..];
    } else {
      RunOfDigits(s[1..]);
      exponent := Some(Exponent(s[0], None, s[1..]));
      assert s == [s[0]] + [] + s[1..];
    }
  }

  lemma StrictIsNumber(s: bytes) returns (n: Numeric)
    requires StrictNumber(s)
    ensures WellFormedNumber(n) && Rfc8259.NumberText(n) == s
  {
    hide StrictFraction, StrictExponent, FractionText, ExponentText, Rfc8259.NumberText;
    var minus := |s| > 0 && s[0] == MINUS;
    var a := if minus then s[1..] else s;
    RunOfDigits(a);
    var whole, t := a[..DigitRun(a)], a[DigitRun(a)..];
    assert a == whole + t;
    var fraction, x := StrictIsFraction(t);
    var exponent := StrictIsExponent(x);
    n := Numeric(minus, whole, fraction, exponent);
    NumberParts(n);
    assert minus ==> s == [MINUS] + a;
  }

  lemma StrictIsFraction(s: bytes) returns (fraction: bytes, x: bytes)
    requires StrictFraction(s)
    ensures FractionText(fraction, x) == s && StrictExponent(x) && (fraction == [] || Digits(fraction))
  {
    hide StrictExponent;
    if |s| > 0 && s[0] == DOT {
      var n := DigitRun(s[1..]);
      RunOfDigits(s[1..]);
      fraction, x := s[1..][..n], s[1..][n..];
      assert s == [DOT] + (fraction + x);
    } else {
      fraction, x := [], s;
    }
  }

  // ----- trees -----

  predicate Strict(v: Cst)
    decreases v
  {
    match v
    case Numeral(lexeme) => StrictNumber(lexeme)
    case Literal(body) => StrictBody(body)
    case List(pad, items) => Space(pad) && StrictItems(items)
    case Table(pad, entries) => Space(pad) && StrictEntries(entries)
    case _ => true
  }

  predicate StrictElement(e: Element)
    decreases e
  {
    Space(e.before) && Strict(e.value) && Space(e.after)
  }

  predicate StrictItems(items: seq<Element>)
    decreases items
  {
    |items| == 0 || (StrictElement(items[0]) && StrictItems(items[1..]))
  }

  predicate StrictEntry(e: Entry)
    decreases e
  {
    Space(e.before) && StrictBody(e.name) && Space(e.between) && StrictElement(e.element)
  }

  predicate StrictEntries(entries: seq<Entry>)
    decreases entries
  {
    |entries| == 0 || (StrictEntry(entries[0]) && StrictEntries(entries[1..]))
  }

  /** The tree of a JSON value is strict. */
  lemma {:induction false} TreeIsStrict(v: Value)
    requires WellFormed(v)
    ensures Strict(Tree(v))
    decreases v
  {
    hide StrictBody, StrictNumber, StringText, Rfc8259.NumberText, WellFormedString, WellFormedNumber, Space;
    match v
    case NumberValue(n) => NumberIsStrict(n);
    case StringValue(chars) => StringIsStrict(chars);
    case ArrayValue(_, items) => ItemTreesAreStrict(items);
    case ObjectValue(_, pairs) => PairTreesAreStrict(pairs);
    case _ =>
  }

  lemma {:induction false} ItemTreesAreStrict(items: seq<Rfc8259.Item>)
    requires WellFormedItems(items)
    ensures StrictItems(ItemTrees(items))
    decreases items
  {
    if |items| > 0 {
      TreeIsStrict(items[0].value);
      ItemTreesAreStrict(items[1..]);
      assert ItemTrees(items)[1..] == ItemTrees(items[1..]);
    }
  }

  lemma {:induction false} PairTreesAreStrict(pairs: seq<Pair>)
    requires WellFormedPairs(pairs)
    ensures StrictEntries(PairTrees(pairs))
    decreases pairs
  {
    if |pairs| > 0 {
      PairTreeIsStrict(pairs[0]);
      PairTreesAreStrict(pairs[1..]);
      assert PairTrees(pairs)[1..] == PairTrees(pairs[1..]);
    }
  }

  lemma {:induction false} PairTreeIsStrict(p: Pair)
    requires WellFormedPair(p)
    ensures StrictEntry(PairTree(p))
    decreases p
  {
    StringIsStrict(p.name);
    assert WellFormedItem(p.item);
    TreeIsStrict(p.item.value);
    assert StrictElement(ItemTree(p.item));
  }

  /** A strict tree is the tree of a JSON value. */
  lemma {:induction false} StrictIsTree(v: Cst) returns (w: Value)
    requires Strict(v)
    ensures WellFormed(w) && Tree(w) == v
    decreases v
  {
    hide StrictBody, StrictNumber, StringText, Rfc8259.NumberText, WellFormedString, WellFormedNumber, Space;
    match v
    case NullWord => w := NullValue;
    case FalseWord => w := FalseValue;
    case TrueWord => w := TrueValue;
    case Numeral(lexeme) => var n := StrictIsNumber(lexeme); w := NumberValue(n);
    case Literal(body) => var chars := StrictIsString(body); w := StringValue(chars);
    case List(pad, items) => var r := StrictAreItems(items); w := ArrayValue(pad, r);
    case Table(pad, entries) => var r := StrictArePairs(entries); w := ObjectValue(pad, r);
  }

  lemma {:induction false} StrictAreItems(items: seq<Element>) returns (r: seq<Rfc8259.Item>)
    requires StrictItems(items)
    ensures WellFormedItems(r) && ItemTrees(r) == items
    decreases items
  {
    r := [];
    if |items| > 0 {
      var e := items[0];
      var w := StrictIsTree(e.value);
      var more := StrictAreItems(items[1..]);
      r := [Rfc8259.Item(e.before, w, e.after)] + more;
      assert r[1..] == more && items == [e] + items[1..];
    }
  }

  lemma {:induction false} StrictArePairs(entries: seq<Entry>) returns (r: seq<Pair>)
    requires StrictEntries(entries)
    ensures WellFormedPairs(r) && PairTrees(r) == entries
    decreases entries
  {
    r := [];
    if |entries| > 0 {
      var p := StrictIsPair(entries[0]);
      var more := StrictArePairs(entries[1..]);
      r := [p] + more;
      assert r[1..] == more && entries == [entries[0]] + entries[1..];
    }
  }

  lemma {:induction false} StrictIsPair(e: Entry) returns (p: Pair)
    requires StrictEntry(e)
    ensures WellFormedPair(p) && PairTree(p) == e
    decreases e
  {
    var name := StrictIsString(e.name);
    assert StrictElement(e.element);
    var w := StrictIsTree(e.element.value);
    var item := Rfc8259.Item(e.element.before, w, e.element.after);
    assert WellFormedItem(item) && ItemTree(item) == e.element;
    p := Pair(e.before, name, e.between, item);
  }

  // ----- strict trees are lexical, and idle parts do not matter -----

  lemma StrictNumberIsText(lexeme: bytes)
    requires StrictNumber(lexeme)
    ensures Values.NumberText(lexeme)
  {
    var n := StrictIsNumber(lexeme);
    NumberIsLexical(n);
  }

  lemma StrictBodyIsClosed(body: bytes)
    requires StrictBody(body)
    ensures ClosedBody(body)
  {
    var chars := StrictIsString(body);
    StringScans(chars);
  }

  lemma {:induction false} StrictUnpadded(v: Cst)
    requires Strict(v)
    ensures Lexical(v) && Strict(Unpadded(v))
    decreases v
  {
    hide StrictBody, StrictNumber, Values.NumberText, ClosedBody, StrictItems, StrictEntries, LexicalItems,
        LexicalEntries;
    hide UnpaddedItems, UnpaddedEntries, Space, Blank;
    match v
    case Numeral(lexeme) => StrictNumberIsText(lexeme);
    case Literal(body) => StrictBodyIsClosed(body);
    case List(pad, items) =>
      SpaceIsBlank(pad);
      NoSpace();
      StrictUnpaddedItems(items);
    case Table(pad, entries) =>
      SpaceIsBlank(pad);
      NoSpace();
      StrictUnpaddedEntries(entries);
    case _ =>
  }

  lemma NoSpace()
    ensures Space([])
  {
  }

  lemma {:induction false} StrictUnpaddedElement(e: Element)
    requires StrictElement(e)
    ensures LexicalElement(e) && StrictElement(UnpaddedElement(e))
    decreases e
  {
    SpaceIsBlank(e.before);
    SpaceIsBlank(e.after);
    StrictUnpadded(e.value);
  }

  lemma {:induction false} StrictUnpaddedItems(items: seq<Element>)
    requires StrictItems(items)
    ensures LexicalItems(items) && StrictItems(UnpaddedItems(items))
    decreases items
  {
    hide StrictElement, LexicalElement, UnpaddedElement;
    if |items| > 0 {
      StrictUnpaddedElement(items[0]);
      StrictUnpaddedItems(items[1..]);
      assert UnpaddedItems(items)[1..] == UnpaddedItems(items[1..]);
    }
  }

  lemma {:induction false} StrictUnpaddedEntry(e: Entry)
    requires StrictEntry(e)
    ensures LexicalEntry(e) && StrictEntry(UnpaddedEntry(e))
    decreases e
  {
    hide StrictElement, LexicalElement, UnpaddedElement, StrictBody, ClosedBody;
    SpaceIsBlank(e.before);
    SpaceIsBlank(e.between);
    StrictBodyIsClosed(e.name);
    StrictUnpaddedElement(e.element);
  }

  lemma {:induction false} StrictUnpaddedEntries(entries: seq<Entry>)
    requires StrictEntries(entries)
    ensures LexicalEntries(entries) && StrictEntries(UnpaddedEntries(entries))
    decreases entries
  {
    hide StrictEntry, LexicalEntry, UnpaddedEntry;
    if |entries| > 0 {
      StrictUnpaddedEntry(entries[0]);
      StrictUnpaddedEntries(entries[1..]);
      assert UnpaddedEntries(entries)[1..] == UnpaddedEntries(entries[1..]);
    }
  }

  // ----- main results -----

  /** `s` is a JSON text by the grammar of RFC 8259, with a C string's terminator. */
  ghost predicate IsJson(s: bytes) {
    exists e: Rfc8259.Item :: WellFormedItem(e) && s == Text(e)
  }

  lemma StrictIsJson(e: Element)
    requires StrictElement(e)
    ensures IsJson(PutElement(e, [NUL]))
  {
    hide Space, StrictBody, StrictNumber;
    var w := StrictIsTree(e.value);
    var item := Rfc8259.Item(e.before, w, e.after);
    assert WellFormedItem(item) && ItemTree(item) == e && PutElement(e, [NUL]) == Text(item);
  }

  /** A text without a byte order mark is JSON exactly when its tree is strict. */
  lemma JsonIsStrict(s: bytes, e: Element)
    requires LexicalElement(e) && s == PutElement(e, [NUL])
    ensures IsJson(s) <==> StrictElement(UnpaddedElement(e))
  {
    hide StrictElement, LexicalElement, UnpaddedElement, PutElement, WellFormedItem;
    if StrictElement(UnpaddedElement(e)) {
      PutUnpaddedElement(e, [NUL]);
      StrictIsJson(UnpaddedElement(e));
    }
    if IsJson(s) {
      var w: Rfc8259.Item :| WellFormedItem(w) && s == Text(w);
      JsonTreeIsStrict(w);
      StrictUnpaddedElement(ItemTree(w));
      OneTree(s, e, ItemTree(w));
    }
  }

  lemma JsonTreeIsStrict(w: Rfc8259.Item)
    requires WellFormedItem(w)
    ensures StrictElement(ItemTree(w))
  {
    TreeIsStrict(w.value);
  }

  /**
   * Every accepted text has one tree without idle parts, which has the value returned. The text, or
   * what stands behind its byte order mark, is JSON exactly when that tree is strict.
   */
  lemma AcceptedJson(k: Codec, s: bytes) returns (e: Element)
    requires OneNul(s) && Parse(k, s, true).Done?
    ensures TextOf(s, e) && Parse(k, s, true) == Done(Denote(k, e.value), [NUL])
    ensures forall f :: TextOf(s, f) ==> UnpaddedElement(f) == e
    ensures IsJson(SkipMark(s)) <==> StrictElement(e)
    ensures IsJson(s) <==> SkipMark(s) == s && StrictElement(e)
  {
    hide StrictElement, LexicalElement, UnpaddedElement, PutElement, Parse, Accepted, Denote, SkipMark, IsJson;
    var f := ReadsText(k, s);
    e := UnpaddedElement(f);
    PutUnpaddedElement(f, [NUL]);
    ParsesText(k, e);
    OneTree(s, f, e);
    forall g | TextOf(s, g) ensures UnpaddedElement(g) == e {
      OneTree(s, f, g);
    }
    JsonIsStrict(PutElement(e, [NUL]), e);
    NoMark(e);
    ParsesWhole(k, e);
    SkipsMark(PutElement(e, [NUL]));
    MarkedIsNotJson(PutElement(e, [NUL]));
  }

  lemma MarkedIsNotJson(t: bytes)
    ensures !IsJson(BYTE_ORDER_MARK + t)
  {
    hide PutElement, WellFormedItem, StrictElement, LexicalElement;
    var s := BYTE_ORDER_MARK + t;
    MarkStarts(t);
    if IsJson(s) {
      var w: Rfc8259.Item :| WellFormedItem(w) && s == Text(w);
      JsonTreeIsStrict(w);
      StrictUnpaddedElement(ItemTree(w));
      NoMark(ItemTree(w));
    }
  }

  /** Four bytes that are not all hexadecimal digits: parse_hex4 makes U+0000 of them. */
  lemma LooseEscape(d0: byte, d1: byte, d2: byte, d3: byte, rest: bytes, out: bytes)
    requires !WellFormedChar(Char.Hex(d0, d1, d2, d3))
    ensures Unescape([BACKSLASH, LOWER_U, d0, d1, d2, d3] + rest, out) == Unescape(rest, out + [NUL])
    ensures !StrictBody([BACKSLASH, LOWER_U, d0, d1, d2, d3] + rest)
  {
    var s := [BACKSLASH, LOWER_U, d0, d1, d2, d3] + rest;
    assert s[2..6] == [d0, d1, d2, d3] && s[6..] == rest;
    assert Hex4(s[2..6]) == 0;
    assert Utf16Literal(s) == Some((0, 6)) && Utf8(0) == [NUL];
  }

  /** Such an escape alone in a literal is an accepted text, reads as the empty string, and is no JSON. */
  lemma LooseText(k: Codec, d0: byte, d1: byte, d2: byte, d3: byte)
    requires !WellFormedChar(Char.Hex(d0, d1, d2, d3))
    requires PlainByte(d0) && PlainByte(d1) && PlainByte(d2) && PlainByte(d3) && NulFree([d0, d1, d2, d3])
    ensures var s := PutLiteral([BACKSLASH, LOWER_U, d0, d1, d2, d3], [NUL]);
            Terminated(s) && Parse(k, s, true) == Done(String(Some([])), [NUL]) && !IsJson(s)
  {
    hide Parse, ClosedBody, StrictBody, StrictElement, LexicalElement, UnpaddedElement, PutElement, PutLiteral,
        WellFormedChar;
    var body := [BACKSLASH, LOWER_U, d0, d1, d2, d3];
    var e := Element([], Literal(body), []);
    LooseBody(d0, d1, d2, d3);
    LooseEscape(d0, d1, d2, d3, [], []);
    assert body + [] == body && [] + [NUL] == [NUL];
    LooseElement(body);
    ParsesText(k, e);
    JsonIsStrict(PutElement(e, [NUL]), e);
  }

  lemma LooseBody(d0: byte, d1: byte, d2: byte, d3: byte)
    requires PlainByte(d0) && PlainByte(d1) && PlainByte(d2) && PlainByte(d3) && NulFree([d0, d1, d2, d3])
    ensures ClosedBody([BACKSLASH, LOWER_U, d0, d1, d2, d3])
  {
    hide ScanLiteral;
    var body := [BACKSLASH, LOWER_U, d0, d1, d2, d3];
    FourPlain(d0, d1, d2, d3);
    assert body[2..] == [d0, d1, d2, d3];
    assert NulFree(body) by {
      assert forall i :: 2 <= i < 6 ==> body[i] == [d0, d1, d2, d3][i - 2];
    }
    assert ScanLiteral([QUOTE]) == Some(0) by { ScanQuote(); }
    UnitScans(body, [QUOTE]);
  }

  lemma LooseElement(body: bytes)
    requires ClosedBody(body)
    ensures var e := Element([], Literal(body), []);
            LexicalElement(e) && PutElement(e, [NUL]) == PutLiteral(body, [NUL])
    ensures StrictElement(UnpaddedElement(Element([], Literal(body), []))) ==> StrictBody(body)
  {
    hide ScanLiteral, StrictBody;
    assert [] + [NUL] == [NUL] && [] + PutLiteral(body, [NUL]) == PutLiteral(body, [NUL]);
    var v := Literal(body);
    assert Unpadded(v) == v && (Strict(v) <==> StrictBody(body));
  }
}
