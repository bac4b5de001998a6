/** The two layouts of printed text, written down with their separators. */
module Layout {
  import opened Bytes
  import opened Values
  import opened Renderer

  function Ascii(s: string): (r: bytes)
    requires forall i :: 0 <= i < |s| ==> s[i] < 128 as char
    ensures |r| == |s| && forall i :: 0 <= i < |s| ==> r[i] == s[i] as int
  {
    seq(|s|, i requires 0 <= i < |s| => s[i] as int)
  }

  /** The pieces with `separator` between any two of them. */
  function Join(pieces: seq<bytes>, separator: bytes): bytes {
    if |pieces| == 0 then []
    else if |pieces| == 1 then pieces[0]
    else pieces[0] + (separator + Join(pieces[1..], separator))
  }

  /** A line starts with as many tabs as there are objects and arrays around it. */
  function Indented(depth: nat, format: bool): bytes {
    if format then seq(depth, i => '\t' as int) else []
  }

  /**
   * Arrays stay on one line; an object has its braces and each of its members on lines of their
   * own, and a tab behind each colon. Without format there is nothing between the tokens.
   */
  function Document(k: Codec, j: Json, format: bool, depth: nat): bytes
    decreases j
  {
    match j
    case Invalid => []
    case Null => Ascii("null")
    case False => Ascii("false")
    case True => Ascii("true")
    case Number(d) => if d.Finite? then k.format(d) else Ascii("null")
    case String(text) => QuotedText(text)
    case Raw(text) => if text.Some? then text.value else []
    case Array(items) =>
      Ascii("[") + (Join(Elements(k, items, format, depth + 1), Ascii(if format then ", " else ",")) + Ascii("]"))
    case Object(members) =>
      Ascii(if format then "{\n" else "{") +
      (Join(Lines(k, members, format, depth + 1), Ascii(if format then ",\n" else ",")) +
       (Ascii(if format && |members| > 0 then "\n" else "") + (Indented(depth, format) + Ascii("}"))))
  }

  /** A string that is absent is written as an empty one. */
  function QuotedText(text: Option<bytes>): bytes {
    Ascii("\"") + ((if text.Some? then Escape(text.value) else []) + Ascii("\""))
  }

  function Elements(k: Codec, items: seq<Json>, format: bool, depth: nat): (r: seq<bytes>)
    ensures |r| == |items|
    decreases items
  {
    if |items| == 0 then []
    else [Document(k, items[0], format, depth)] + Elements(k, items[1..], format, depth)
  }

  function Line(k: Codec, m: Member, format: bool, depth: nat): bytes
    decreases m
  {
    Indented(depth, format) +
    (QuotedText(m.key) + (Ascii(if format then ":\t" else ":") + Document(k, m.value, format, depth)))
  }

  function Lines(k: Codec, members: seq<Member>, format: bool, depth: nat): (r: seq<bytes>)
    ensures |r| == |members|
    decreases members
  {
    if |members| == 0 then []
    else [Line(k, members[0], format, depth)] + Lines(k, members[1..], format, depth)
  }

  // ----- that is what is printed -----

  lemma Separators()
    ensures Ascii("[") == [LBRACKET] && Ascii("]") == [RBRACKET] && Ascii("}") == [RBRACE] && Ascii("{") == [LBRACE]
    ensures Ascii(", ") == [COMMA] + [SPACE] && Ascii(",") == [COMMA] + [] && Ascii(",\n") == [COMMA] + [NEWLINE]
    ensures Ascii("{\n") == [LBRACE] + [NEWLINE] && Ascii("\n") == [NEWLINE] && Ascii("") == []
    ensures Ascii(":\t") == [COLON] + [TAB] && Ascii(":") == [COLON] + []
  {
  }

  lemma Words()
    ensures Ascii("null") == NULL_TEXT && Ascii("true") == TRUE_TEXT && Ascii("false") == FALSE_TEXT
    ensures Ascii("\"") == [QUOTE]
  {
  }

  lemma StringIsQuoted(text: Option<bytes>)
    ensures RenderString(text) == QuotedText(text)
  {
    Words();
  }

  lemma IndentIsIndented(format: bool, depth: nat)
    ensures Indent(format, depth) == Indented(depth, format)
  {
  }

  /** The printed text is the document, formatted or not and at any depth. */
  lemma {:induction false} RenderIsDocument(k: Codec, j: Json, format: bool, depth: nat)
    ensures Render(k, j, format, depth) == Document(k, j, format, depth)
    decreases j, 1
  {
    hide RenderItems, RenderMembers, Join, Elements, Lines, Ascii;
    Separators();
    match j
    case Array(items) => ElementsAreJoined(k, items, format, depth + 1);
    case Object(members) => ObjectIsDocument(k, j, format, depth);
    case String(text) => StringIsQuoted(text);
    case _ => Words();
  }

  lemma {:induction false} ElementsAreJoined(k: Codec, items: seq<Json>, format: bool, depth: nat)
    ensures RenderItems(k, items, format, depth) ==
            Join(Elements(k, items, format, depth), Ascii(if format then ", " else ","))
    decreases items
  {
    hide Render, Document, Ascii;
    Separators();
    var pieces := Elements(k, items, format, depth);
    if |items| > 0 {
      RenderIsDocument(k, items[0], format, depth);
      ElementsAreJoined(k, items[1..], format, depth);
      assert pieces[1..] == Elements(k, items[1..], format, depth);
      Nest([COMMA], Gap(format, SPACE), RenderItems(k, items[1..], format, depth));
    }
  }

  lemma {:induction false} ObjectIsDocument(k: Codec, j: Json, format: bool, depth: nat)
    requires j.Object?
    ensures Render(k, j, format, depth) == Document(k, j, format, depth)
    decreases j, 0
  {
    hide Render, Document, RenderMembers, Join, Lines, Ascii, Indent, Indented;
    ObjectsUnfold(k, j, format, depth);
    LinesAreJoined(k, j.members, format, depth + 1);
    IndentIsIndented(format, depth);
    var end := Indented(depth, format) + [RBRACE];
    var lines := Join(Lines(k, j.members, format, depth + 1), Ascii(if format then ",\n" else ","));
    Nest(lines, if |j.members| > 0 then Newline(format) else [], end);
  }

  lemma ObjectsUnfold(k: Codec, j: Json, format: bool, depth: nat)
    requires j.Object?
    ensures Render(k, j, format, depth) ==
            ([LBRACE] + Newline(format)) +
            (RenderMembers(k, j.members, format, depth + 1) + (Indent(format, depth) + [RBRACE]))
    ensures Document(k, j, format, depth) ==
            ([LBRACE] + Newline(format)) +
            (Join(Lines(k, j.members, format, depth + 1), Ascii(if format then ",\n" else ",")) +
             ((if |j.members| > 0 then Newline(format) else []) + (Indented(depth, format) + [RBRACE])))
  {
    hide RenderMembers, Join, Lines, Ascii, Indent, Indented;
    Separators();
    NoPrefix([LBRACE]);
    Nest([LBRACE], Newline(format),
      RenderMembers(k, j.members, format, depth + 1) + (Indent(format, depth) + [RBRACE]));
  }

  lemma {:induction false} LinesAreJoined(k: Codec, members: seq<Member>, format: bool, depth: nat)
    ensures RenderMembers(k, members, format, depth) ==
            Join(Lines(k, members, format, depth), Ascii(if format then ",\n" else ",")) +
            (if |members| > 0 then Newline(format) else [])
    decreases members, 0
  {
    hide RenderMember, Line, Ascii;
    Separators();
    if |members| > 0 {
      var pieces := Lines(k, members, format, depth);
      var separator := Ascii(if format then ",\n" else ",");
      MemberIsLine(k, members[0], format, depth);
      LinesAreJoined(k, members[1..], format, depth);
      assert pieces[1..] == Lines(k, members[1..], format, depth);
      var more := RenderMembers(k, members[1..], format, depth);
      if |members| == 1 {
        assert members[1..] == [] && more == [];
        NoPrefix(Newline(format));
      } else {
        Nest([COMMA], Newline(format), more);
        Nest(pieces[0], separator + Join(pieces[1..], separator), Newline(format));
        Nest(separator, Join(pieces[1..], separator), Newline(format));
      }
    }
  }

  lemma {:induction false} MemberIsLine(k: Codec, m: Member, format: bool, depth: nat)
    ensures RenderMember(k, m, format, depth) == Line(k, m, format, depth)
    decreases m, 2
  {
    hide Render, Document, Ascii, Indent, Indented;
    Separators();
    IndentIsIndented(format, depth);
    StringIsQuoted(m.key);
    RenderIsDocument(k, m.value, format, depth);
    Nest([COLON], Gap(format, TAB), Render(k, m.value, format, depth));
  }
}
