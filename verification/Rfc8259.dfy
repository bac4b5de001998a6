/**
 * JSON by RFC 8259, sections 2 to 7, as syntax trees with their own meaning, and the exact set
 * of JSON texts the parser accepts and reads correctly.
 *
 * Bytes of 0x80 and above stand for themselves: well-formedness of the text's UTF-8 is not the
 * parser's business.
 */
module Rfc8259 {
  import opened Bytes
  import opened Values
  import opened Parser
  import opened Syntax
  import opened Language
  import opened Recognition

  /** Section 7: one char of a string. */
  datatype Char = Unescaped(b: byte) | Short(letter: byte) | Hex(d0: byte, d1: byte, d2: byte, d3: byte)

  /** Section 6. An empty fraction stands for none. */
  datatype Numeric = Numeric(minus: bool, whole: bytes, fraction: bytes, exponent: Option<Exponent>)

  datatype Exponent = Exponent(e: byte, sign: Option<byte>, digits: bytes)

  /** Sections 2 to 5; `pad` is the blank inside an empty array or object. */
  datatype Value =
    | NullValue
    | FalseValue
    | TrueValue
    | NumberValue(n: Numeric)
    | StringValue(chars: seq<Char>)
    | ArrayValue(pad: bytes, items: seq<Item>)
    | ObjectValue(pad: bytes, pairs: seq<Pair>)

  datatype Item = Item(before: bytes, value: Value, after: bytes)

  datatype Pair = Pair(before: bytes, name: seq<Char>, between: bytes, item: Item)

  // ----- well-formed trees -----

  predicate Space(s: bytes) {
    forall i :: 0 <= i < |s| ==> s[i] == SPACE || s[i] == TAB || s[i] == NEWLINE || s[i] == RETURN
  }

  predicate DecimalDigit(b: byte) { '0' as int <= b <= '9' as int }

  predicate HexadecimalDigit(b: byte) {
    DecimalDigit(b) || 'A' as int <= b <= 'F' as int || 'a' as int <= b <= 'f' as int
  }

  predicate Digits(s: bytes) {
    |s| > 0 && forall i :: 0 <= i < |s| ==> DecimalDigit(s[i])
  }

  predicate WellFormedNumber(n: Numeric) {
    Digits(n.whole) && (n.whole[0] == 0x30 ==> |n.whole| == 1) &&
    (n.fraction == [] || Digits(n.fraction)) &&
    match n.exponent
    case None => true
    case Some(x) =>
      (x.e == LOWER_E || x.e == UPPER_E) && Digits(x.digits) &&
      (x.sign == None || x.sign == Some(PLUS) || x.sign == Some(MINUS))
  }

  predicate WellFormedChar(c: Char) {
    match c
    case Unescaped(b) => b >= SPACE && b != QUOTE && b != BACKSLASH
    case Short(letter) => letter in {QUOTE, BACKSLASH, SLASH, LOWER_B, LOWER_F, LOWER_N, LOWER_R, LOWER_T}
    case Hex(d0, d1, d2, d3) =>
      HexadecimalDigit(d0) && HexadecimalDigit(d1) && HexadecimalDigit(d2) && HexadecimalDigit(d3)
  }

  predicate WellFormedString(chars: seq<Char>) {
    |chars| == 0 || (WellFormedChar(chars[0]) && WellFormedString(chars[1..]))
  }

  predicate WellFormed(v: Value)
    decreases v
  {
    match v
    case NumberValue(n) => WellFormedNumber(n)
    case StringValue(chars) => WellFormedString(chars)
    case ArrayValue(pad, items) => Space(pad) && WellFormedItems(items)
    case ObjectValue(pad, pairs) => Space(pad) && WellFormedPairs(pairs)
    case _ => true
  }

  predicate WellFormedItem(e: Item)
    decreases e
  {
    Space(e.before) && WellFormed(e.value) && Space(e.after)
  }

  predicate WellFormedItems(items: seq<Item>)
    decreases items
  {
    |items| == 0 || (WellFormedItem(items[0]) && WellFormedItems(items[1..]))
  }

  predicate WellFormedPair(p: Pair)
    decreases p
  {
    Space(p.before) && WellFormedString(p.name) && Space(p.between) && WellFormedItem(p.item)
  }

  predicate WellFormedPairs(pairs: seq<Pair>)
    decreases pairs
  {
    |pairs| == 0 || (WellFormedPair(pairs[0]) && WellFormedPairs(pairs[1..]))
  }

  // ----- text, by way of the trees of module Syntax -----

  function NumberText(n: Numeric): bytes {
    (if n.minus then [MINUS] else []) + n.whole +
    (if n.fraction == [] then [] else [DOT] + n.fraction) +
    match n.exponent
    case None => []
    case Some(x) => [x.e] + (match x.sign case None => [] case Some(b) => [b]) + x.digits
  }

  function CharText(c: Char): bytes {
    match c
    case Unescaped(b) => [b]
    case Short(letter) => [BACKSLASH, letter]
    case Hex(d0, d1, d2, d3) => [BACKSLASH, LOWER_U, d0, d1, d2, d3]
  }

  function StringText(chars: seq<Char>): bytes {
    if |chars| == 0 then [] else CharText(chars[0]) + StringText(chars[1..])
  }

  function Tree(v: Value): Cst
    decreases v
  {
    match v
    case NullValue => NullWord
    case FalseValue => FalseWord
    case TrueValue => TrueWord
    case NumberValue(n) => Numeral(NumberText(n))
    case StringValue(chars) => Literal(StringText(chars))
    case ArrayValue(pad, items) => List(pad, ItemTrees(items))
    case ObjectValue(pad, pairs) => Table(pad, PairTrees(pairs))
  }

  function ItemTree(e: Item): Element
    decreases e
  {
    Element(e.before, Tree(e.value), e.after)
  }

  function ItemTrees(items: seq<Item>): (r: seq<Element>)
    ensures |r| == |items|
    decreases items
  {
    if |items| == 0 then [] else [ItemTree(items[0])] + ItemTrees(items[1..])
  }

  function PairTree(p: Pair): Entry
    decreases p
  {
    Entry(p.before, StringText(p.name), p.between, ItemTree(p.item))
  }

  function PairTrees(pairs: seq<Pair>): (r: seq<Entry>)
    ensures |r| == |pairs|
    decreases pairs
  {
    if |pairs| == 0 then [] else [PairTree(pairs[0])] + PairTrees(pairs[1..])
  }

  /** The JSON text of `e`, with a C string's terminator. */
  function Text(e: Item): bytes {
    PutElement(ItemTree(e), [NUL])
  }

  // ----- meaning -----

  /** The value of a hexadecimal digit (0 for other bytes, which well-formed chars do not contain). */
  function DigitValue(b: byte): (n: nat)
    ensures n < 16
  {
    if DecimalDigit(b) then b - '0' as int
    else if 'A' as int <= b <= 'F' as int then 10 + b - 'A' as int
    else if 'a' as int <= b <= 'f' as int then 10 + b - 'a' as int
    else 0
  }

  function CharCode(c: Char): (u: nat)
    requires c.Hex?
    ensures u < 0x10000
  {
    DigitValue(c.d0) * 0x1000 + DigitValue(c.d1) * 0x100 + DigitValue(c.d2) * 0x10 + DigitValue(c.d3)
  }

  function ShortMeaning(letter: byte): byte {
    if letter == LOWER_B then BACKSPACE
    else if letter == LOWER_F then FORM_FEED
    else if letter == LOWER_N then NEWLINE
    else if letter == LOWER_R then RETURN
    else if letter == LOWER_T then TAB
    else letter
  }

  predicate StartsPair(chars: seq<Char>)
  {
    |chars| >= 2 && chars[0].Hex? && chars[1].Hex? &&
    HighSurrogate(CharCode(chars[0])) && LowSurrogate(CharCode(chars[1]))
  }

  /** The UTF-8 string the chars denote; None when a surrogate is not paired. */
  function StringMeaning(chars: seq<Char>): Option<bytes>
    decreases |chars|
  {
    if |chars| == 0 then Some([])
    else if StartsPair(chars) then
      Prepend(Utf8(Combine(CharCode(chars[0]), CharCode(chars[1]))), StringMeaning(chars[1..][1..]))
    else
      match chars[0]
      case Unescaped(b) => Prepend([b], StringMeaning(chars[1..]))
      case Short(letter) => Prepend([ShortMeaning(letter)], StringMeaning(chars[1..]))
      case Hex(_, _, _, _) =>
        var u := CharCode(chars[0]);
        if 0xD800 <= u <= 0xDFFF then None else Prepend(Utf8(u), StringMeaning(chars[1..]))
  }

  function Prepend(a: bytes, r: Option<bytes>): Option<bytes> {
    match r
    case None => None
    case Some(b) => Some(a + b)
  }

  function OrEmpty(r: Option<bytes>): bytes {
    match r
    case None => []
    case Some(b) => b
  }

  function Meaning(k: Codec, v: Value): Json
    decreases v
  {
    match v
    case NullValue => Null
    case FalseValue => False
    case TrueValue => True
    case NumberValue(n) => Number(k.strtod(NumberText(n)).1)
    case StringValue(chars) => String(Some(OrEmpty(StringMeaning(chars))))
    case ArrayValue(_, items) => Array(ItemMeanings(k, items))
    case ObjectValue(_, pairs) => Object(PairMeanings(k, pairs))
  }

  function ItemMeanings(k: Codec, items: seq<Item>): seq<Json>
    decreases items
  {
    if |items| == 0 then [] else [Meaning(k, items[0].value)] + ItemMeanings(k, items[1..])
  }

  function PairMeanings(k: Codec, pairs: seq<Pair>): seq<Member>
    decreases pairs
  {
    if |pairs| == 0 then []
    else [PairMeaning(k, pairs[0])] + PairMeanings(k, pairs[1..])
  }

  function PairMeaning(k: Codec, p: Pair): Member
    decreases p
  {
    Member(Some(OrEmpty(StringMeaning(p.name))), Meaning(k, p.item.value))
  }

  // ----- what the parser demands beyond the grammar -----

  /** At most 1000 levels, at most 63 bytes to a number, and only paired surrogates. */
  predicate WithinLimits(v: Value, d: nat)
    decreases v
  {
    match v
    case NumberValue(n) => |NumberText(n)| <= 63
    case StringValue(chars) => StringMeaning(chars).Some?
    case ArrayValue(_, items) => d < 1000 && ItemsWithinLimits(items, d + 1)
    case ObjectValue(_, pairs) => d < 1000 && PairsWithinLimits(pairs, d + 1)
    case _ => true
  }

  predicate ItemsWithinLimits(items: seq<Item>, d: nat)
    decreases items
  {
    |items| == 0 || (WithinLimits(items[0].value, d) && ItemsWithinLimits(items[1..], d))
  }

  predicate PairsWithinLimits(pairs: seq<Pair>, d: nat)
    decreases pairs
  {
    |pairs| == 0 || (PairWithinLimits(pairs[0], d) && PairsWithinLimits(pairs[1..], d))
  }

  predicate PairWithinLimits(p: Pair, d: nat)
    decreases p
  {
    StringMeaning(p.name).Some? && WithinLimits(p.item.value, d)
  }

  /** strtod consumes every JSON number completely (its subject sequence contains that grammar). */
  ghost predicate ReadsNumbers(k: Codec) {
    forall n: Numeric :: WellFormedNumber(n) ==> k.strtod(NumberText(n)).0 == |NumberText(n)|
  }

  /** The tree as C strings hold it: every string ends at its first U+0000. */
  function Cut(j: Json): Json
    decreases j
  {
    match j
    case String(Some(s)) => String(Some(CString(s)))
    case Raw(Some(s)) => Raw(Some(CString(s)))
    case Array(items) => Array(CutItems(items))
    case Object(members) => Object(CutMembers(members))
    case _ => j
  }

  function CutItems(items: seq<Json>): (r: seq<Json>)
    ensures |r| == |items|
    decreases items
  {
    if |items| == 0 then [] else [Cut(items[0])] + CutItems(items[1..])
  }

  function CutMembers(members: seq<Member>): (r: seq<Member>)
    ensures |r| == |members|
    decreases members
  {
    if |members| == 0 then [] else [CutMember(members[0])] + CutMembers(members[1..])
  }

  function CutMember(m: Member): Member
    decreases m
  {
    Member(match m.key case None => None case Some(s) => Some(CString(s)), Cut(m.value))
  }

  lemma CutString(s: bytes)
    ensures CString(s) == s <==> NulFree(s)
  {
    if NulFree(s) { CStringOfNulFree(s); }
  }

  lemma {:induction false} CutNothing(j: Json)
    ensures Cut(j) == j <==> NoNul(j)
    decreases j
  {
    match j
    case String(Some(s)) => CutString(s);
    case Raw(Some(s)) => CutString(s);
    case Array(items) => CutNoItems(items);
    case Object(members) => CutNoMembers(members);
    case _ =>
  }

  lemma {:induction false} CutNoItems(items: seq<Json>)
    ensures CutItems(items) == items <==> NoNulItems(items)
    decreases items
  {
    if |items| > 0 {
      CutNothing(items[0]);
      CutNoItems(items[1..]);
      assert CutItems(items)[0] == Cut(items[0]) && CutItems(items)[1..] == CutItems(items[1..]);
      assert items == [items[0]] + items[1..];
    }
  }

  lemma {:induction false} CutNoMember(m: Member)
    ensures CutMember(m) == m <==> NoNulMember(m)
    decreases m
  {
    CutNothing(m.value);
    if m.key.Some? { CutString(m.key.value); }
  }

  lemma {:induction false} CutNoMembers(members: seq<Member>)
    ensures CutMembers(members) == members <==> NoNulMembers(members)
    decreases members
  {
    if |members| > 0 {
      var m := members[0];
      CutNoMember(m);
      CutNoMembers(members[1..]);
      assert CutMembers(members)[0] == CutMember(m) && CutMembers(members)[1..] == CutMembers(members[1..]);
      assert members == [m] + members[1..];
    }
  }

  // ----- strings -----

  lemma DigitIsRead(b: byte)
    requires HexadecimalDigit(b)
    ensures HexDigit(b) == Some(DigitValue(b))
  {
  }

  lemma HexValue(c: Char, s: bytes)
    requires c.Hex? && WellFormedChar(c) && |s| >= 6 && s[..6] == CharText(c)
    ensures Hex4(s[2..6]) == CharCode(c)
  {
    hide HexDigit, DigitValue, HexadecimalDigit;
    assert s[2..6] == s[..6][2..] == [c.d0, c.d1, c.d2, c.d3];
    DigitIsRead(c.d0);
    DigitIsRead(c.d1);
    DigitIsRead(c.d2);
    DigitIsRead(c.d3);
  }

  lemma {:induction false} StringScans(chars: seq<Char>)
    requires WellFormedString(chars)
    ensures ScanLiteral(StringText(chars) + [QUOTE]) == Some(|StringText(chars)|) && NulFree(StringText(chars))
  {
    hide ScanLiteral, CharText, Unit;
    if |chars| == 0 {
      ScanQuote();
    } else {
      StringScans(chars[1..]);
      CharIsUnit(chars[0]);
      UnitScans(CharText(chars[0]), StringText(chars[1..]) + [QUOTE]);
      assert StringText(chars) + [QUOTE] == CharText(chars[0]) + (StringText(chars[1..]) + [QUOTE]);
    }
  }

  lemma CharIsUnit(c: Char)
    requires WellFormedChar(c)
    ensures Unit(CharText(c)) && NulFree(CharText(c))
  {
    if c.Hex? {
      FourPlain(c.d0, c.d1, c.d2, c.d3);
      assert CharText(c)[2..] == [c.d0, c.d1, c.d2, c.d3];
    }
  }

  /** A high surrogate that no low one follows makes utf16_literal_to_utf8 fail. */
  lemma UnpairedHigh(chars: seq<Char>)
    requires WellFormedString(chars) && |chars| > 0 && chars[0].Hex?
    requires HighSurrogate(CharCode(chars[0])) && !StartsPair(chars)
    ensures Utf16Literal(StringText(chars)) == None
  {
    var s := StringText(chars);
    var t := StringText(chars[1..]);
    assert s[6..] == t;
    HexValue(chars[0], s);
    if |s| >= 12 {
      assert s[6] == t[0] && s[7] == t[1];
      assert t == CharText(chars[1]) + StringText(chars[1..][1..]);
      if chars[1].Hex? {
        assert s[6..][..6] == t[..6] == CharText(chars[1]);
        HexValue(chars[1], t);
        SecondDigits(s);
      }
    }
  }

  lemma SecondDigits(s: bytes)
    requires |s| >= 12
    ensures s[8..12] == s[6..][2..6]
  {
  }

  lemma PairedHigh(chars: seq<Char>)
    requires WellFormedString(chars) && StartsPair(chars)
    ensures Utf16Literal(StringText(chars)) == Some((Combine(CharCode(chars[0]), CharCode(chars[1])), 12))
    ensures StringText(chars)[12..] == StringText(chars[1..][1..])
  {
    var s := StringText(chars);
    var t := StringText(chars[1..]);
    assert s == CharText(chars[0]) + t && t == CharText(chars[1]) + StringText(chars[1..][1..]);
    HexValue(chars[0], s);
    HexValue(chars[1], t);
    assert s[6..] == t;
    SecondDigits(s);
  }

  lemma SingleUnit(chars: seq<Char>)
    requires WellFormedString(chars) && |chars| > 0 && chars[0].Hex? && !HighSurrogate(CharCode(chars[0]))
    ensures Utf16Literal(StringText(chars)) ==
            if LowSurrogate(CharCode(chars[0])) then None else Some((CharCode(chars[0]), 6))
  {
    HexValue(chars[0], StringText(chars));
  }

  /** parse_string's second loop computes the string the grammar denotes. */
  lemma {:induction false} StringDecodes(chars: seq<Char>, out: bytes)
    requires WellFormedString(chars)
    ensures match StringMeaning(chars)
            case Some(m) => Unescape(StringText(chars), out) == Done(out + m, [])
            case None => Unescape(StringText(chars), out).Stop?
    decreases |chars|, 0
  {
    var s := StringText(chars);
    if |chars| == 0 {
      assert out + [] == out;
    } else if StartsPair(chars) {
      PairedHigh(chars);
      DecodesStep(Utf8(Combine(CharCode(chars[0]), CharCode(chars[1]))), chars[1..][1..], out);
    } else {
      var c := chars[0];
      assert s[|CharText(c)|..] == StringText(chars[1..]);
      match c
      case Unescaped(b) => DecodesStep([b], chars[1..], out);
      case Short(letter) => DecodesStep([ShortMeaning(letter)], chars[1..], out);
      case Hex(_, _, _, _) =>
        if HighSurrogate(CharCode(c)) {
          UnpairedHigh(chars);
        } else {
          SingleUnit(chars);
          DecodesStep(Utf8(CharCode(c)), chars[1..], out);
        }
    }
  }

  lemma {:induction false} DecodesStep(a: bytes, rest: seq<Char>, out: bytes)
    requires WellFormedString(rest)
    ensures match StringMeaning(rest)
            case Some(m) => Unescape(StringText(rest), out + a) == Done(out + (a + m), [])
            case None => Unescape(StringText(rest), out + a).Stop?
    decreases |rest|, 1
  {
    StringDecodes(rest, out + a);
    if StringMeaning(rest).Some? {
      assert out + a + StringMeaning(rest).value == out + (a + StringMeaning(rest).value);
    }
  }

  lemma StringAgrees(chars: seq<Char>)
    requires WellFormedString(chars)
    ensures var body := StringText(chars);
            ClosedBody(body) && (Unescape(body, []).Done? <==> StringMeaning(chars).Some?) &&
            LiteralValue(body) == CString(OrEmpty(StringMeaning(chars)))
  {
    StringScans(chars);
    StringDecodes(chars, []);
    var m := OrEmpty(StringMeaning(chars));
    assert [] + m == m;
  }

  // ----- values -----

  lemma NumberIsLexical(n: Numeric)
    requires WellFormedNumber(n)
    ensures Values.NumberText(NumberText(n))
  {
  }

  lemma {:induction false} TreeAgrees(k: Codec, v: Value, d: nat)
    requires WellFormed(v) && ReadsNumbers(k)
    ensures Lexical(Tree(v)) && (Accepted(k, Tree(v), d) <==> WithinLimits(v, d)) &&
            Denote(k, Tree(v)) == Cut(Meaning(k, v))
    decreases v, 1
  {
    hide WellFormedItems, ItemTrees, ItemsWithinLimits, ItemMeanings, WellFormedPairs, PairTrees, PairsWithinLimits,
        PairMeanings;
    hide LexicalItems, AcceptedItems, DenoteItems, CutItems, LexicalEntries, AcceptedEntries, DenoteEntries, CutMembers;
    hide StringText, StringMeaning, Unescape, ClosedBody, CString, LiteralValue, OrEmpty, ReadsNumbers;
    match v
    case NumberValue(_) => NumberTreeAgrees(k, v, d);
    case StringValue(chars) => StringAgrees(chars);
    case ArrayValue(_, _) => ArrayTreeAgrees(k, v, d);
    case ObjectValue(_, _) => ObjectTreeAgrees(k, v, d);
    case _ =>
  }

  lemma NumberTreeAgrees(k: Codec, v: Value, d: nat)
    requires v.NumberValue? && WellFormed(v) && ReadsNumbers(k)
    ensures Lexical(Tree(v)) && (Accepted(k, Tree(v), d) <==> WithinLimits(v, d)) &&
            Denote(k, Tree(v)) == Cut(Meaning(k, v))
  {
    NumberIsLexical(v.n);
  }

  lemma {:induction false} ArrayTreeAgrees(k: Codec, v: Value, d: nat)
    requires v.ArrayValue? && WellFormed(v) && ReadsNumbers(k)
    ensures Lexical(Tree(v)) && (Accepted(k, Tree(v), d) <==> WithinLimits(v, d)) &&
            Denote(k, Tree(v)) == Cut(Meaning(k, v))
    decreases v, 0
  {
    hide WellFormedItems, ItemTrees, ItemsWithinLimits, ItemMeanings, LexicalItems, AcceptedItems, DenoteItems,
        CutItems;
    hide Blank, Space, ReadsNumbers;
    ItemTreesAgree(k, v.items, d + 1);
    SpaceIsBlank(v.pad);
    ListFacts(k, v.pad, ItemTrees(v.items), d);
  }

  lemma {:induction false} ObjectTreeAgrees(k: Codec, v: Value, d: nat)
    requires v.ObjectValue? && WellFormed(v) && ReadsNumbers(k)
    ensures Lexical(Tree(v)) && (Accepted(k, Tree(v), d) <==> WithinLimits(v, d)) &&
            Denote(k, Tree(v)) == Cut(Meaning(k, v))
    decreases v, 0
  {
    hide WellFormedPairs, PairTrees, PairsWithinLimits, PairMeanings, LexicalEntries, AcceptedEntries, DenoteEntries,
        CutMembers;
    hide Blank, Space, ReadsNumbers;
    PairTreesAgree(k, v.pairs, d + 1);
    SpaceIsBlank(v.pad);
    TableFacts(k, v.pad, PairTrees(v.pairs), d);
  }

  lemma {:induction false} ItemTreesAgree(k: Codec, items: seq<Item>, d: nat)
    requires WellFormedItems(items) && ReadsNumbers(k)
    ensures var t := ItemTrees(items);
            LexicalItems(t) && (AcceptedItems(k, t, d) <==> ItemsWithinLimits(items, d)) &&
            DenoteItems(k, t) == CutItems(ItemMeanings(k, items))
    decreases items
  {
    if |items| > 0 {
      ItemTreeAgrees(k, items[0], d);
      ItemTreesAgree(k, items[1..], d);
      ConsItemTrees(k, items);
    }
  }

  lemma {:induction false} ItemTreeAgrees(k: Codec, e: Item, d: nat)
    requires WellFormedItem(e) && ReadsNumbers(k)
    ensures LexicalElement(ItemTree(e)) && ItemTree(e).value == Tree(e.value)
    ensures Accepted(k, Tree(e.value), d) <==> WithinLimits(e.value, d)
    ensures Denote(k, Tree(e.value)) == Cut(Meaning(k, e.value))
    decreases e
  {
    SpaceIsBlank(e.before);
    SpaceIsBlank(e.after);
    TreeAgrees(k, e.value, d);
  }

  lemma SpaceIsBlank(s: bytes)
    requires Space(s)
    ensures Blank(s)
  {
  }

  lemma ConsItemTrees(k: Codec, items: seq<Item>)
    requires |items| > 0
    ensures ItemTrees(items)[0] == ItemTree(items[0]) && ItemTrees(items)[1..] == ItemTrees(items[1..])
    ensures ItemMeanings(k, items)[0] == Meaning(k, items[0].value) &&
            ItemMeanings(k, items)[1..] == ItemMeanings(k, items[1..])
  {
  }

  lemma {:induction false} PairTreesAgree(k: Codec, pairs: seq<Pair>, d: nat)
    requires WellFormedPairs(pairs) && ReadsNumbers(k)
    ensures var t := PairTrees(pairs);
            LexicalEntries(t) && (AcceptedEntries(k, t, d) <==> PairsWithinLimits(pairs, d)) &&
            DenoteEntries(k, t) == CutMembers(PairMeanings(k, pairs))
    decreases pairs
  {
    if |pairs| > 0 {
      PairTreeAgrees(k, pairs[0], d);
      PairTreesAgree(k, pairs[1..], d);
      ConsPairs(k, pairs);
    }
  }

  lemma ConsPairs(k: Codec, pairs: seq<Pair>)
    requires |pairs| > 0
    ensures PairTrees(pairs)[0] == PairTree(pairs[0]) && PairTrees(pairs)[1..] == PairTrees(pairs[1..])
    ensures PairMeanings(k, pairs)[0] == PairMeaning(k, pairs[0]) &&
            PairMeanings(k, pairs)[1..] == PairMeanings(k, pairs[1..])
  {
  }

  lemma {:induction false} PairTreeAgrees(k: Codec, p: Pair, d: nat)
    requires WellFormedPair(p) && ReadsNumbers(k)
    ensures var t := PairTree(p);
            LexicalEntry(t) && (AcceptedEntry(k, t, d) <==> PairWithinLimits(p, d)) &&
            EntryMember(k, t) == CutMember(PairMeaning(k, p))
    decreases p
  {
    SpaceIsBlank(p.before);
    SpaceIsBlank(p.between);
    StringAgrees(p.name);
    ItemTreeAgrees(k, p.item, d);
  }

  // ----- main results -----

  /**
   * Every JSON text within the limits is accepted and read as the tree it denotes, up to cutting
   * strings at U+0000; every other JSON text is refused.
   */
  lemma AcceptsJson(k: Codec, e: Item)
    requires WellFormedItem(e) && ReadsNumbers(k)
    ensures Terminated(Text(e))
    ensures Parse(k, Text(e), true) == Done(Cut(Meaning(k, e.value)), [NUL]) <==> WithinLimits(e.value, 0)
    ensures Parse(k, Text(e), true).Stop? <==> !WithinLimits(e.value, 0)
  {
    TreeAgrees(k, e.value, 0);
    ParsesText(k, ItemTree(e));
  }

  /** The parser returns the meaning itself exactly when, in addition, no string contains U+0000. */
  lemma ReadsJsonExactly(k: Codec, e: Item)
    requires WellFormedItem(e) && ReadsNumbers(k)
    ensures Terminated(Text(e))
    ensures Parse(k, Text(e), true) == Done(Meaning(k, e.value), [NUL]) <==>
            WithinLimits(e.value, 0) && NoNul(Meaning(k, e.value))
  {
    AcceptsJson(k, e);
    CutNothing(Meaning(k, e.value));
  }
}
