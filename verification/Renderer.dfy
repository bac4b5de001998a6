/** The text the printer produces, as a function of the tree. */
module Renderer {
  import opened Bytes
  import opened Values

  /** sprintf's %x for one digit. */
  function HexChar(n: nat): byte
    requires n < 16
  {
    if n < 10 then 0x30 + n else 0x61 + n - 10
  }

  /** What print_string_ptr writes for one byte. */
  function EscapeByte(b: byte): (r: bytes)
    ensures 1 <= |r| <= 6
  {
    if b == BACKSLASH then [BACKSLASH, BACKSLASH]
    else if b == QUOTE then [BACKSLASH, QUOTE]
    else if b == BACKSPACE then [BACKSLASH, LOWER_B]
    else if b == FORM_FEED then [BACKSLASH, LOWER_F]
    else if b == NEWLINE then [BACKSLASH, LOWER_N]
    else if b == RETURN then [BACKSLASH, LOWER_R]
    else if b == TAB then [BACKSLASH, LOWER_T]
    else if b < SPACE then [BACKSLASH, LOWER_U, 0x30, 0x30, HexChar(b / 16), HexChar(b % 16)]
    else [b]
  }

  function Escape(s: bytes): bytes {
    if |s| == 0 then [] else EscapeByte(s[0]) + Escape(s[1..])
  }

  /** A string or key; a NULL pointer prints as the empty string. */
  function RenderString(text: Option<bytes>): bytes {
    match text
    case None => [QUOTE, QUOTE]
    case Some(s) => [QUOTE] + (Escape(s) + [QUOTE])
  }

  function Tabs(n: nat): (r: bytes)
    ensures |r| == n
    ensures forall i :: 0 <= i < n ==> r[i] == TAB
  {
    if n == 0 then [] else [TAB] + Tabs(n - 1)
  }

  /** print_value fails on nothing else: an item of no type, or a raw item without text. */
  predicate Printable(j: Json)
    decreases j
  {
    match j
    case Invalid => false
    case Raw(text) => text.Some?
    case Array(items) => PrintableItems(items)
    case Object(members) => PrintableMembers(members)
    case _ => true
  }

  predicate PrintableItems(items: seq<Json>)
    decreases items
  {
    |items| == 0 || (Printable(items[0]) && PrintableItems(items[1..]))
  }

  predicate PrintableMembers(members: seq<Member>)
    decreases members
  {
    |members| == 0 || (PrintableMember(members[0]) && PrintableMembers(members[1..]))
  }

  predicate PrintableMember(m: Member)
    decreases m
  {
    Printable(m.value)
  }

  /** `depth` counts the arrays and objects around the value. */
  function Render(k: Codec, j: Json, format: bool, depth: nat): bytes
    decreases j
  {
    match j
    case Invalid => []
    case Null => NULL_TEXT
    case False => FALSE_TEXT
    case True => TRUE_TEXT
    case Number(d) => NumberRendering(k, d)
    case String(text) => RenderString(text)
    case Raw(text) => (match text case None => [] case Some(s) => s)
    case Array(items) => [LBRACKET] + (RenderItems(k, items, format, depth + 1) + [RBRACKET])
    case Object(members) => RenderObject(k, members, format, depth)
  }

  function RenderObject(k: Codec, members: seq<Member>, format: bool, depth: nat): bytes
    decreases members, 1
  {
    [LBRACE] + (Newline(format) + (RenderMembers(k, members, format, depth + 1) + (Indent(format, depth) + [RBRACE])))
  }

  function Newline(format: bool): bytes {
    if format then [NEWLINE] else []
  }

  function Indent(format: bool, depth: nat): bytes {
    if format then Tabs(depth) else []
  }

  function Gap(format: bool, b: byte): bytes {
    if format then [b] else []
  }

  function RenderItems(k: Codec, items: seq<Json>, format: bool, depth: nat): bytes
    decreases items
  {
    if |items| == 0 then []
    else if |items| == 1 then Render(k, items[0], format, depth)
    else
      Render(k, items[0], format, depth) +
      ([COMMA] + (Gap(format, SPACE) + RenderItems(k, items[1..], format, depth)))
  }

  function RenderMember(k: Codec, m: Member, format: bool, depth: nat): bytes
    decreases m
  {
    Indent(format, depth) + (RenderString(m.key) + ([COLON] + (Gap(format, TAB) + Render(k, m.value, format, depth))))
  }

  function Comma(last: bool): bytes {
    if last then [] else [COMMA]
  }

  function RenderMembers(k: Codec, members: seq<Member>, format: bool, depth: nat): bytes
    decreases members, 0
  {
    if |members| == 0 then []
    else
      RenderMember(k, members[0], format, depth) +
      (Comma(|members| == 1) + (Newline(format) + RenderMembers(k, members[1..], format, depth)))
  }
}
