/**
 * The parser as a function on the unread suffix of the input.
 *
 * parse_buffer.offset is |content| - |suffix|; every suffix still holds the terminating NUL.
 */
module Parser {
  import opened Bytes
  import opened Values

  const NESTING_LIMIT := 1000
  const NUMBER_BUFFER := 63

  /** A parse either yields a value and the unread suffix or stops with `left` bytes unread. */
  datatype Outcome<+T> = Done(value: T, rest: bytes) | Stop(left: nat)

  predicate StartsWith(s: bytes, prefix: bytes) {
    |prefix| <= |s| && s[..|prefix|] == prefix
  }

  /** buffer_skip_whitespace: all of 0..32 counts as blank, but the last byte is never passed. */
  function SkipWhitespace(s: bytes): (t: bytes)
    requires Terminated(s)
    ensures Terminated(t) && |t| <= |s|
  {
    if s[0] <= SPACE && |s| > 1 then SkipWhitespace(s[1..]) else s
  }

  /** The length of the number run parse_number copies, at most `limit` bytes. */
  function NumberRun(s: bytes, limit: nat): (n: nat)
    ensures n <= |s| && n <= limit
    ensures forall i :: 0 <= i < n ==> NumberByte(s[i])
    ensures n < |s| && n < limit ==> !NumberByte(s[n])
  {
    if limit == 0 || |s| == 0 || !NumberByte(s[0]) then 0 else 1 + NumberRun(s[1..], limit - 1)
  }

  function ParseNumber(k: Codec, s: bytes): Outcome<Json>
    requires Terminated(s)
  {
    var lexeme := s[..NumberRun(s, NUMBER_BUFFER)];
    var (used, number) := k.strtod(lexeme);
    if used == 0 then Stop(|s|) else Done(Number(number), s[used..])
  }

  // ----- string literals -----

  /**
   * The first loop of parse_string. `s` starts inside the literal; the result is the number of
   * bytes before the closing quote.
   */
  function ScanLiteral(s: bytes): (r: Option<nat>)
    ensures r.Some? ==> r.value < |s| && s[r.value] == QUOTE
  {
    if |s| == 0 then None
    else if s[0] == QUOTE then Some(0)
    else if s[0] == BACKSLASH then
      if |s| < 2 then None
      else match ScanLiteral(s[2..]) case Some(n) => Some(n + 2) case None => None
    else match ScanLiteral(s[1..]) case Some(n) => Some(n + 1) case None => None
  }

  /** The value of one hexadecimal digit. */
  function HexDigit(b: byte): (r: Option<nat>)
    ensures r.Some? ==> r.value < 16
  {
    if 0x30 <= b <= 0x39 then Some(b - 0x30)
    else if 0x41 <= b <= 0x46 then Some(b - 0x41 + 10)
    else if 0x61 <= b <= 0x66 then Some(b - 0x61 + 10)
    else None
  }

  /** parse_hex4: four digits, or 0 when one of them is not a digit. */
  function Hex4(s: bytes): (n: nat)
    requires |s| >= 4
    ensures n < 0x10000
  {
    if HexDigit(s[0]).Some? && HexDigit(s[1]).Some? && HexDigit(s[2]).Some? && HexDigit(s[3]).Some?
    then ((HexDigit(s[0]).value * 16 + HexDigit(s[1]).value) * 16 + HexDigit(s[2]).value) * 16 + HexDigit(s[3]).value
    else 0
  }

  predicate LowSurrogate(u: nat) { 0xDC00 <= u <= 0xDFFF }

  predicate HighSurrogate(u: nat) { 0xD800 <= u <= 0xDBFF }

  /** Section 2.2 of RFC 2781. */
  function Combine(high: nat, low: nat): (cp: nat)
    requires HighSurrogate(high) && LowSurrogate(low)
    ensures 0x10000 <= cp <= 0x10FFFF
  {
    0x10000 + (high - 0xD800) * 0x400 + (low - 0xDC00)
  }

  /** The UTF-8 form of section 3 of RFC 3629. */
  function Utf8(cp: nat): (out: bytes)
    requires cp <= 0x10FFFF
    ensures 1 <= |out| <= 4
  {
    if cp < 0x80 then [cp]
    else if cp < 0x800 then [0xC0 + cp / 0x40, 0x80 + cp % 0x40]
    else if cp < 0x10000 then [0xE0 + cp / 0x1000, 0x80 + cp / 0x40 % 0x40, 0x80 + cp % 0x40]
    else [0xF0 + cp / 0x40000, 0x80 + cp / 0x1000 % 0x40, 0x80 + cp / 0x40 % 0x40, 0x80 + cp % 0x40]
  }

  /**
   * utf16_literal_to_utf8 on the rest of a literal body that starts with backslash-u: the code
   * point and how many bytes it took, or None.
   */
  function Utf16Literal(body: bytes): (r: Option<(nat, nat)>)
    ensures r.Some? ==> r.value.0 <= 0x10FFFF && r.value.1 <= |body|
    ensures r.Some? ==> r.value.1 == 6 || (r.value.1 == 12 && r.value.0 >= 0x10000)
    ensures r.Some? && r.value.1 == 6 ==> r.value.0 < 0x10000 && r.value.0 == Hex4(body[2..6])
  {
    if |body| < 6 then None
    else
      var first := Hex4(body[2..6]);
      if LowSurrogate(first) then None
      else if HighSurrogate(first) then
        if |body| < 12 || body[6] != BACKSLASH || body[7] != LOWER_U then None
        else
          var second := Hex4(body[8..12]);
          if !LowSurrogate(second) then None else Some((Combine(first, second), 12))
      else Some((first, 6))
  }

  /** The byte a two-character escape stands for. */
  function ShortEscape(b: byte): Option<byte> {
    if b == LOWER_B then Some(BACKSPACE)
    else if b == LOWER_F then Some(FORM_FEED)
    else if b == LOWER_N then Some(NEWLINE)
    else if b == LOWER_R then Some(RETURN)
    else if b == LOWER_T then Some(TAB)
    else if b == QUOTE || b == BACKSLASH || b == SLASH then Some(b)
    else None
  }

  /**
   * The second loop of parse_string, from input_pointer on: `body` is what is left before the
   * closing quote and `out` what was written. A backslash that is the last byte of the body
   * takes the closing quote as its second character.
   */
  function Unescape(body: bytes, out: bytes): Outcome<bytes>
    decreases |body|
  {
    if |body| == 0 then Done(out, [])
    else if body[0] != BACKSLASH then Unescape(body[1..], out + [body[0]])
    else
      var letter := if |body| > 1 then body[1] else QUOTE;
      if letter == LOWER_U then
        match Utf16Literal(body)
        case None => Stop(|body|)
        case Some((cp, used)) => Unescape(body[used..], out + Utf8(cp))
      else
        match ShortEscape(letter)
        case None => Stop(|body|)
        case Some(b) => if |body| == 1 then Done(out + [b], []) else Unescape(body[2..], out + [b])
  }

  /** parse_string: the bytes stored for the literal (an embedded NUL cuts the C string short). */
  function ParseString(s: bytes): Outcome<bytes>
    requires Terminated(s)
  {
    if s[0] != QUOTE then Stop(|s| - 1)
    else
      match ScanLiteral(s[1..])
      case None => Stop(|s| - 1)
      case Some(n) =>
        match Unescape(s[1..n + 1], [])
        case Stop(left) => Stop(|s| - 1 - n + left)
        case Done(out, _) => Done(out, s[n + 2..])
  }

  /** What parse_string leaves unread is a shorter terminated suffix. */
  lemma ParseStringAdvances(s: bytes)
    requires Terminated(s)
    ensures Sound(s, ParseString(s))
  {
    if s[0] == QUOTE && ScanLiteral(s[1..]).Some? {
      var n := ScanLiteral(s[1..]).value;
      assert s[1..][n] == s[n + 1];
      UnescapeStop(s[1..n + 1], []);
    }
  }

  lemma {:induction false} UnescapeStop(body: bytes, out: bytes)
    ensures Unescape(body, out).Stop? ==> Unescape(body, out).left <= |body|
    decreases |body|
  {
    if |body| == 0 {
    } else if body[0] != BACKSLASH {
      UnescapeStop(body[1..], out + [body[0]]);
    } else {
      var letter := if |body| > 1 then body[1] else QUOTE;
      if letter == LOWER_U {
        if Utf16Literal(body).Some? {
          var (cp, used) := Utf16Literal(body).value;
          UnescapeStop(body[used..], out + Utf8(cp));
        }
      } else if ShortEscape(letter).Some? && |body| > 1 {
        UnescapeStop(body[2..], out + [ShortEscape(letter).value]);
      }
    }
  }

  // ----- values -----

  /** What a successful step leaves unread: less, and still terminated. */
  predicate Advanced(s: bytes, t: bytes) {
    |t| < |s| && Terminated(t)
  }

  predicate Sound<T>(s: bytes, o: Outcome<T>) {
    match o
    case Done(_, t) => Advanced(s, t)
    case Stop(left) => left <= |s|
  }

  /** Past the blanks and one more byte that is not the terminator. */
  lemma NextAdvances(s: bytes, rest: bytes)
    requires Advanced(s, rest)
    ensures var t := SkipWhitespace(rest);
            |t| < |s| && (t[0] != NUL ==> Advanced(s, t[1..]))
  {
  }

  /** parse_value at nesting depth `d`. */
  function ParseValue(k: Codec, s: bytes, d: nat): (o: Outcome<Json>)
    requires Terminated(s)
    ensures Sound(s, o)
    decreases |s|, 2
  {
    if StartsWith(s, NULL_TEXT) then Keyword(s, NULL_TEXT, Null)
    else if StartsWith(s, FALSE_TEXT) then Keyword(s, FALSE_TEXT, False)
    else if StartsWith(s, TRUE_TEXT) then Keyword(s, TRUE_TEXT, True)
    else if s[0] == QUOTE then
      ParseStringAdvances(s);
      match ParseString(s)
      case Done(out, rest) => Done(String(Some(CString(out))), rest)
      case Stop(left) => Stop(left)
    else if NumberStart(s[0]) then
      NumberAdvances(k, s);
      ParseNumber(k, s)
    else if s[0] == LBRACKET then ParseArray(k, s, d)
    else if s[0] == LBRACE then ParseObject(k, s, d)
    else Stop(|s|)
  }

  function Keyword(s: bytes, word: bytes, value: Json): (o: Outcome<Json>)
    requires Terminated(s) && StartsWith(s, word) && |word| > 0 && word[|word| - 1] != NUL
    ensures Sound(s, o)
  {
    assert s[|word| - 1] == word[|word| - 1];
    Done(value, s[|word|..])
  }

  lemma NumberAdvances(k: Codec, s: bytes)
    requires Terminated(s)
    ensures Sound(s, ParseNumber(k, s))
  {
    var n := NumberRun(s, NUMBER_BUFFER);
    assert k.strtod(s[..n]).0 <= n;
    assert !NumberByte(s[|s| - 1]);
  }

  function ParseArray(k: Codec, s: bytes, d: nat): (o: Outcome<Json>)
    requires Terminated(s) && s[0] == LBRACKET
    ensures Sound(s, o)
    decreases |s|, 1
  {
    if d >= NESTING_LIMIT then Stop(|s|)
    else
      var t := SkipWhitespace(s[1..]);
      if t[0] == RBRACKET then Done(Array([]), t[1..])
      else ParseItems(k, s[1..], d + 1, [])
  }

  /** The loop of parse_array, just behind the opening bracket or a comma. */
  function ParseItems(k: Codec, s: bytes, d: nat, items: seq<Json>): (o: Outcome<Json>)
    requires Terminated(s)
    ensures Sound(s, o)
    decreases |s|, 3
  {
    match ParseValue(k, SkipWhitespace(s), d)
    case Stop(left) => Stop(left)
    case Done(v, rest) =>
      var t := SkipWhitespace(rest);
      NextAdvances(s, rest);
      if t[0] == COMMA then ParseItems(k, t[1..], d, items + [v])
      else if t[0] == RBRACKET then Done(Array(items + [v]), t[1..])
      else Stop(|t|)
  }

  function ParseObject(k: Codec, s: bytes, d: nat): (o: Outcome<Json>)
    requires Terminated(s) && s[0] == LBRACE
    ensures Sound(s, o)
    decreases |s|, 1
  {
    if d >= NESTING_LIMIT then Stop(|s|)
    else
      var t := SkipWhitespace(s[1..]);
      if t[0] == RBRACE then Done(Object([]), t[1..])
      else ParseMembers(k, s[1..], d + 1, [])
  }

  /** The loop of parse_object, just behind the opening brace or a comma. */
  function ParseMembers(k: Codec, s: bytes, d: nat, members: seq<Member>): (o: Outcome<Json>)
    requires Terminated(s)
    ensures Sound(s, o)
    decreases |s|, 3
  {
    match ParseMember(k, s, d)
    case Stop(left) => Stop(left)
    case Done(m, rest) =>
      var t := SkipWhitespace(rest);
      NextAdvances(s, rest);
      if t[0] == COMMA then ParseMembers(k, t[1..], d, members + [m])
      else if t[0] == RBRACE then Done(Object(members + [m]), t[1..])
      else Stop(|t|)
  }

  /** One name, colon and value. */
  function ParseMember(k: Codec, s: bytes, d: nat): (o: Outcome<Member>)
    requires Terminated(s)
    ensures Sound(s, o)
    decreases |s|, 2
  {
    var s1 := SkipWhitespace(s);
    ParseStringAdvances(s1);
    match ParseString(s1)
    case Stop(left) => Stop(left)
    case Done(name, rest) =>
      var s2 := SkipWhitespace(rest);
      if s2[0] != COLON then Stop(|s2|)
      else
        match ParseValue(k, SkipWhitespace(s2[1..]), d)
        case Stop(left) => Stop(left)
        case Done(v, rest') => Done(Member(Some(CString(name)), v), rest')
  }

  /** skip_utf8_bom: only when more than the mark itself fits before the terminator. */
  function SkipMark(s: bytes): (t: bytes)
    requires Terminated(s)
    ensures Terminated(t)
  {
    if |s| > 4 && StartsWith(s, BYTE_ORDER_MARK) then s[3..] else s
  }

  /** cJSON_ParseWithOpts on the block `s`, a C string with its terminator. */
  function Parse(k: Codec, s: bytes, requireNullTerminated: bool): (o: Outcome<Json>)
    requires Terminated(s)
  {
    match ParseValue(k, SkipWhitespace(SkipMark(s)), 0)
    case Stop(left) => Stop(left)
    case Done(v, rest) =>
      if requireNullTerminated then
        var t := SkipWhitespace(rest);
        if t[0] != NUL then Stop(|t|) else Done(v, t)
      else Done(v, rest)
  }
}
