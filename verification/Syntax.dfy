/**
 * The language cJSON reads, as concrete syntax trees. It contains JSON and is wider: every byte
 * 1..32 is blank, a number is any run strtod consumes, and a literal body is any bytes whose
 * first unescaped quote is the closing one.
 */
module Syntax {
  import opened Bytes
  import opened Values
  import opened Parser

  datatype Cst =
    | NullWord
    | FalseWord
    | TrueWord
    | Numeral(lexeme: bytes)
    | Literal(body: bytes)
    | List(pad: bytes, items: seq<Element>)
    | Table(pad: bytes, entries: seq<Entry>)

  /** A value with the blanks around it; `pad` above is the inside of an empty pair of brackets. */
  datatype Element = Element(before: bytes, value: Cst, after: bytes)

  datatype Entry = Entry(before: bytes, name: bytes, between: bytes, element: Element)

  // ----- text: each function writes a tree in front of `rest` -----

  function Put(v: Cst, rest: bytes): bytes
    decreases v
  {
    match v
    case NullWord => NULL_TEXT + rest
    case FalseWord => FALSE_TEXT + rest
    case TrueWord => TRUE_TEXT + rest
    case Numeral(lexeme) => lexeme + rest
    case Literal(body) => PutLiteral(body, rest)
    case List(pad, items) => [LBRACKET] + if |items| == 0 then pad + ([RBRACKET] + rest)
      else PutItems(items, [RBRACKET] + rest)
    case Table(pad, entries) => [LBRACE] + if |entries| == 0 then pad + ([RBRACE] + rest)
      else PutEntries(entries, [RBRACE] + rest)
  }

  function PutLiteral(body: bytes, rest: bytes): bytes {
    [QUOTE] + (body + ([QUOTE] + rest))
  }

  function PutElement(e: Element, rest: bytes): bytes
    decreases e
  {
    e.before + Put(e.value, e.after + rest)
  }

  function PutItems(items: seq<Element>, rest: bytes): bytes
    requires |items| > 0
    decreases items
  {
    if |items| == 1 then PutElement(items[0], rest)
    else PutElement(items[0], [COMMA] + PutItems(items[1..], rest))
  }

  function PutEntry(e: Entry, rest: bytes): bytes
    decreases e
  {
    e.before + PutLiteral(e.name, e.between + ([COLON] + PutElement(e.element, rest)))
  }

  function PutEntries(entries: seq<Entry>, rest: bytes): bytes
    requires |entries| > 0
    decreases entries
  {
    if |entries| == 1 then PutEntry(entries[0], rest)
    else PutEntry(entries[0], [COMMA] + PutEntries(entries[1..], rest))
  }

  // ----- which trees are lexically in order -----

  predicate Blank(s: bytes) {
    forall i :: 0 <= i < |s| ==> NUL < s[i] <= SPACE
  }

  /** The first loop of parse_string stops exactly at the closing quote. */
  predicate ClosedBody(body: bytes) {
    NulFree(body) && ScanLiteral(body + [QUOTE]) == Some(|body|)
  }

  predicate Lexical(v: Cst)
    decreases v
  {
    match v
    case Numeral(lexeme) => NumberText(lexeme)
    case Literal(body) => ClosedBody(body)
    case List(pad, items) => Blank(pad) && LexicalItems(items)
    case Table(pad, entries) => Blank(pad) && LexicalEntries(entries)
    case _ => true
  }

  predicate LexicalElement(e: Element)
    decreases e
  {
    Blank(e.before) && Blank(e.after) && Lexical(e.value)
  }

  predicate LexicalItems(items: seq<Element>)
    decreases items
  {
    |items| == 0 || (LexicalElement(items[0]) && LexicalItems(items[1..]))
  }

  predicate LexicalEntry(e: Entry)
    decreases e
  {
    Blank(e.before) && ClosedBody(e.name) && Blank(e.between) && LexicalElement(e.element)
  }

  predicate LexicalEntries(entries: seq<Entry>)
    decreases entries
  {
    |entries| == 0 || (LexicalEntry(entries[0]) && LexicalEntries(entries[1..]))
  }

  // ----- which of them the parser accepts at nesting depth `d`, and what they denote -----

  predicate Accepted(k: Codec, v: Cst, d: nat)
    decreases v
  {
    match v
    case Numeral(lexeme) => |lexeme| <= NUMBER_BUFFER && k.strtod(lexeme).0 == |lexeme|
    case Literal(body) => Unescape(body, []).Done?
    case List(_, items) => d < NESTING_LIMIT && AcceptedItems(k, items, d + 1)
    case Table(_, entries) => d < NESTING_LIMIT && AcceptedEntries(k, entries, d + 1)
    case _ => true
  }

  predicate AcceptedItems(k: Codec, items: seq<Element>, d: nat)
    decreases items
  {
    |items| == 0 || (Accepted(k, items[0].value, d) && AcceptedItems(k, items[1..], d))
  }

  predicate AcceptedEntry(k: Codec, e: Entry, d: nat)
    decreases e
  {
    Unescape(e.name, []).Done? && Accepted(k, e.element.value, d)
  }

  predicate AcceptedEntries(k: Codec, entries: seq<Entry>, d: nat)
    decreases entries
  {
    |entries| == 0 || (AcceptedEntry(k, entries[0], d) && AcceptedEntries(k, entries[1..], d))
  }

  function LiteralValue(body: bytes): bytes {
    match Unescape(body, [])
    case Done(out, _) => CString(out)
    case Stop(_) => []
  }

  function Denote(k: Codec, v: Cst): Json
    decreases v
  {
    match v
    case NullWord => Null
    case FalseWord => False
    case TrueWord => True
    case Numeral(lexeme) => Number(k.strtod(lexeme).1)
    case Literal(body) => String(Some(LiteralValue(body)))
    case List(_, items) => Array(DenoteItems(k, items))
    case Table(_, entries) => Object(DenoteEntries(k, entries))
  }

  function DenoteItems(k: Codec, items: seq<Element>): (r: seq<Json>)
    ensures |r| == |items|
    decreases items
  {
    if |items| == 0 then [] else [Denote(k, items[0].value)] + DenoteItems(k, items[1..])
  }

  function DenoteEntries(k: Codec, entries: seq<Entry>): (r: seq<Member>)
    ensures |r| == |entries|
    decreases entries
  {
    if |entries| == 0 then []
    else [EntryMember(k, entries[0])] + DenoteEntries(k, entries[1..])
  }

  function EntryMember(k: Codec, e: Entry): Member
    decreases e
  {
    Member(Some(LiteralValue(e.name)), Denote(k, e.element.value))
  }

  lemma ListFacts(k: Codec, pad: bytes, items: seq<Element>, d: nat)
    ensures Lexical(List(pad, items)) == (Blank(pad) && LexicalItems(items))
    ensures Accepted(k, List(pad, items), d) == (d < NESTING_LIMIT && AcceptedItems(k, items, d + 1))
    ensures Denote(k, List(pad, items)) == Array(DenoteItems(k, items))
  {
  }

  lemma TableFacts(k: Codec, pad: bytes, entries: seq<Entry>, d: nat)
    ensures Lexical(Table(pad, entries)) == (Blank(pad) && LexicalEntries(entries))
    ensures Accepted(k, Table(pad, entries), d) == (d < NESTING_LIMIT && AcceptedEntries(k, entries, d + 1))
    ensures Denote(k, Table(pad, entries)) == Object(DenoteEntries(k, entries))
  {
  }

  // ----- small facts about text -----

  /** A lexical value starts with a byte that is neither blank nor a closing bracket. */
  lemma FirstByte(v: Cst, rest: bytes)
    requires Lexical(v)
    ensures Put(v, rest)[0] > SPACE && Put(v, rest)[0] != RBRACKET && Put(v, rest)[0] != COMMA
  {
  }

  lemma HeadTail(s: bytes)
    requires |s| > 0
    ensures s == [s[0]] + s[1..]
  {
  }

  lemma TerminatedSuffix(a: bytes, b: bytes)
    requires Terminated(b)
    ensures Terminated(a + b)
  {
  }

  lemma {:induction false} PutTerminated(v: Cst, rest: bytes)
    requires Terminated(rest)
    ensures Terminated(Put(v, rest))
    decreases v
  {
    match v
    case List(pad, items) => if |items| > 0 { PutItemsTerminated(items, [RBRACKET] + rest); }
    case Table(pad, entries) => if |entries| > 0 { PutEntriesTerminated(entries, [RBRACE] + rest); }
    case _ =>
  }

  lemma {:induction false} PutElementTerminated(e: Element, rest: bytes)
    requires Terminated(rest)
    ensures Terminated(PutElement(e, rest))
    decreases e
  {
    PutTerminated(e.value, e.after + rest);
  }

  lemma {:induction false} PutItemsTerminated(items: seq<Element>, rest: bytes)
    requires |items| > 0 && Terminated(rest)
    ensures Terminated(PutItems(items, rest))
    decreases items
  {
    if |items| == 1 {
      PutElementTerminated(items[0], rest);
    } else {
      PutItemsTerminated(items[1..], rest);
      PutElementTerminated(items[0], [COMMA] + PutItems(items[1..], rest));
    }
  }

  lemma {:induction false} PutEntryTerminated(e: Entry, rest: bytes)
    requires Terminated(rest)
    ensures Terminated(PutEntry(e, rest))
    decreases e
  {
    PutElementTerminated(e.element, rest);
  }

  lemma {:induction false} PutEntriesTerminated(entries: seq<Entry>, rest: bytes)
    requires |entries| > 0 && Terminated(rest)
    ensures Terminated(PutEntries(entries, rest))
    decreases entries
  {
    if |entries| == 1 {
      PutEntryTerminated(entries[0], rest);
    } else {
      PutEntriesTerminated(entries[1..], rest);
      PutEntryTerminated(entries[0], [COMMA] + PutEntries(entries[1..], rest));
    }
  }
}
