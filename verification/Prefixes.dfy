/**
 * cJSON_Parse, which is cJSON_ParseWithOpts without require_null_terminated: it reads one value and
 * does not look at what follows.
 */
module Prefixes {
  import opened Bytes
  import opened Values
  import opened Parser
  import opened Syntax
  import opened Language
  import opened Recognition

  predicate NumberCharacter(c: char) { '0' <= c <= '9' || c in "+-eE." }

  /** What strtod gets to see: the characters of numbers at the start of `t`, but no more than 63 of them. */
  function Seen(t: bytes): (lexeme: bytes)
    ensures |lexeme| <= 63 && lexeme <= t && forall i :: 0 <= i < |lexeme| ==> NumberCharacter(lexeme[i] as char)
    ensures |lexeme| == 63 || lexeme == t || !NumberCharacter(t[|lexeme|] as char)
  {
    NumberCharacters();
    t[..NumberRun(t, NUMBER_BUFFER)]
  }

  lemma NumberCharacters()
    ensures forall b: byte :: NumberByte(b) <==> NumberCharacter(b as char)
  {
    forall b: byte ensures NumberByte(b) <==> NumberCharacter(b as char) {
      assert b as char in "+-eE." <==>
        b as char == '+' || b as char == '-' || b as char == 'e' || b as char == 'E' || b as char == '.';
    }
  }

  /**
   * The value `v` stands in front of `rest`. A number is as much as strtod takes of the bytes it
   * sees; any other value is an acceptable tree, whatever follows it.
   */
  predicate Heads(k: Codec, v: Cst, rest: bytes, d: nat) {
    Terminated(rest) &&
    match v
    case Numeral(lexeme) =>
      |lexeme| > 0 && NumberStart(lexeme[0]) && k.strtod(Seen(lexeme + rest)).0 == |lexeme|
    case _ => Lexical(v) && Accepted(k, v, d)
  }

  function HeadValue(k: Codec, v: Cst, rest: bytes): Json {
    match v
    case Numeral(lexeme) => Number(k.strtod(Seen(lexeme + rest)).1)
    case _ => Denote(k, v)
  }

  /** `s` is blanks, a value and a rest, perhaps behind a byte order mark. */
  predicate Splits(k: Codec, s: bytes, before: bytes, v: Cst, rest: bytes) {
    Blank(before) && Heads(k, v, rest, 0) &&
    (s == before + Put(v, rest) || s == BYTE_ORDER_MARK + (before + Put(v, rest)))
  }

  // ----- reading what a text starts with -----

  lemma FirstOfHead(k: Codec, v: Cst, rest: bytes, d: nat)
    requires Heads(k, v, rest, d) || (Lexical(v) && Terminated(rest))
    ensures Terminated(Put(v, rest)) && |Put(v, rest)| >= 2 && SPACE < Put(v, rest)[0] < 0x80
  {
    PutTerminated(v, rest);
  }

  /** parse_value on such a text. */
  lemma ParsesHead(k: Codec, v: Cst, rest: bytes, d: nat)
    requires Heads(k, v, rest, d)
    ensures Terminated(Put(v, rest)) && ParseValue(k, Put(v, rest), d) == Done(HeadValue(k, v, rest), rest)
  {
    hide ParseValue, Lexical, Accepted, Denote, ParseString, ParseArray, ParseObject;
    PutTerminated(v, rest);
    if v.Numeral? {
      var s := v.lexeme + rest;
      ValueByFirstByte(k, s, d);
      assert s[..NumberRun(s, NUMBER_BUFFER)] == Seen(s);
      assert s[|v.lexeme|..] == rest;
    } else {
      ParsesValue(k, v, rest, d);
    }
  }

  /** Blanks and a byte order mark in front do not matter. */
  lemma PrefixIsValue(k: Codec, before: bytes, t: bytes)
    requires Blank(before) && Terminated(t) && |t| >= 2 && SPACE < t[0] < 0x80
    ensures var s := before + t;
            Terminated(s) && Parse(k, s, false) == ParseValue(k, t, 0) &&
            Terminated(BYTE_ORDER_MARK + s) && Parse(k, BYTE_ORDER_MARK + s, false) == ParseValue(k, t, 0)
  {
    hide SkipMark, SkipWhitespace, ParseValue;
    var s := before + t;
    SkipTo(before, t);
    assert s[0] == if |before| == 0 then t[0] else before[0];
    MarkFirst(s);
    SkipsMark(s);
  }

  lemma ParsesSplit(k: Codec, s: bytes, before: bytes, v: Cst, rest: bytes)
    requires Splits(k, s, before, v, rest)
    ensures Terminated(s) && Parse(k, s, false) == Done(HeadValue(k, v, rest), rest)
  {
    hide Parse, ParseValue, Put, Heads, HeadValue;
    FirstOfHead(k, v, rest, 0);
    PrefixIsValue(k, before, Put(v, rest));
    ParsesHead(k, v, rest, 0);
  }

  /**
   * A value in front of anything, or of anything that cannot prolong it if it is a number: it is
   * read exactly when it is acceptable.
   */
  lemma ParsesInFront(k: Codec, before: bytes, v: Cst, rest: bytes)
    requires Blank(before) && Lexical(v) && Terminated(rest) && (v.Numeral? ==> Follow(rest))
    ensures var s := before + Put(v, rest);
            Terminated(s) && Terminated(BYTE_ORDER_MARK + s) &&
            Parse(k, BYTE_ORDER_MARK + s, false) == Parse(k, s, false) &&
            if Accepted(k, v, 0) then Parse(k, s, false) == Done(Denote(k, v), rest)
            else if v.Numeral? then Lost(Parse(k, s, false))
            else Parse(k, s, false).Stop?
  {
    hide Parse, ParseValue, Put, Accepted, Denote, Lexical;
    FirstOfHead(k, v, rest, 0);
    PrefixIsValue(k, before, Put(v, rest));
    ParsesValue(k, v, rest, 0);
  }

  // ----- what is accepted -----

  lemma ReadsHead(k: Codec, s: bytes, d: nat) returns (v: Cst)
    requires OneNul(s) && ParseValue(k, s, d).Done?
    ensures var o := ParseValue(k, s, d);
            s == Put(v, o.rest) && Heads(k, v, o.rest, d) && o.value == HeadValue(k, v, o.rest) && OneNul(o.rest)
  {
    hide ParseValue, Put, Lexical, Accepted, Denote, ParseString, ParseArray, ParseObject;
    if NumberStart(s[0]) {
      ValueByFirstByte(k, s, d);
      var lexeme := s[..k.strtod(Seen(s)).0];
      v := Numeral(lexeme);
      NumberAdvances(k, s);
      OneNulSuffix(s, |lexeme|);
      assert s == lexeme + s[|lexeme|..];
      PutNumeral(lexeme, s[|lexeme|..]);
    } else {
      v := ReadsValue(k, s, d);
      PutFirst(v, ParseValue(k, s, d).rest);
    }
  }

  lemma PutNumeral(lexeme: bytes, rest: bytes)
    ensures Put(Numeral(lexeme), rest) == lexeme + rest
  {
  }

  lemma PutFirst(v: Cst, rest: bytes)
    requires Lexical(v)
    ensures |Put(v, rest)| > 0 && (v.Numeral? ==> NumberStart(Put(v, rest)[0]))
  {
  }

  lemma ReadsSplit(k: Codec, s: bytes) returns (before: bytes, v: Cst)
    requires OneNul(s) && Parse(k, s, false).Done?
    ensures var o := Parse(k, s, false);
            Splits(k, s, before, v, o.rest) && o.value == HeadValue(k, v, o.rest) && OneNul(o.rest)
  {
    hide ParseValue, Put, Heads, HeadValue;
    var t := SkipMark(s);
    if t != s {
      OneNulSuffix(s, 3);
      assert s == BYTE_ORDER_MARK + t;
    }
    before := SkipSplits(t);
    v := ReadsHead(k, SkipWhitespace(t), 0);
  }

  // ----- main results -----

  /** cJSON_Parse accepts exactly the texts that start with a value, and leaves exactly what follows it. */
  lemma PrefixTheorem(k: Codec, s: bytes)
    requires OneNul(s)
    ensures Parse(k, s, false).Done? <==> exists before, v, rest :: Splits(k, s, before, v, rest)
    ensures forall before, v, rest :: Splits(k, s, before, v, rest) ==>
              Parse(k, s, false) == Done(HeadValue(k, v, rest), rest)
  {
    hide Parse, Splits, HeadValue;
    forall before, v, rest | Splits(k, s, before, v, rest)
      ensures Parse(k, s, false) == Done(HeadValue(k, v, rest), rest)
    {
      ParsesSplit(k, s, before, v, rest);
    }
    if Parse(k, s, false).Done? {
      var before, v := ReadsSplit(k, s);
      assert Splits(k, s, before, v, Parse(k, s, false).rest);
    }
  }

  /** What require_null_terminated adds: nothing but blanks may follow the value. The value is the same. */
  lemma WholeIsPrefix(k: Codec, s: bytes)
    requires OneNul(s)
    ensures var whole, prefix := Parse(k, s, true), Parse(k, s, false);
            (whole.Done? <==> prefix.Done? && |prefix.rest| > 0 && Blank(prefix.rest[..|prefix.rest| - 1])) &&
            (whole.Done? ==> whole == Done(prefix.value, [NUL]))
  {
    hide ParseValue, SkipMark;
    ParseSteps(k, s);
    var prefix := Parse(k, s, false);
    if prefix.Done? {
      var before, v := ReadsSplit(k, s);
      BlanksToTheEnd(prefix.rest);
    }
  }

  /** Only blanks are left if skipping them leads to the terminator. */
  lemma BlanksToTheEnd(s: bytes)
    requires OneNul(s)
    ensures SkipWhitespace(s)[0] == NUL <==> Blank(s[..|s| - 1])
    ensures SkipWhitespace(s)[0] == NUL ==> SkipWhitespace(s) == [NUL]
  {
    if Blank(s[..|s| - 1]) {
      assert s == s[..|s| - 1] + [NUL];
      SkipBlanks(s[..|s| - 1], [NUL]);
    }
    if SkipWhitespace(s)[0] == NUL {
      var blanks := SkipSplits(s);
      OneNulAt(SkipWhitespace(s), 0);
      assert SkipWhitespace(s) == [NUL];
      assert s[..|s| - 1] == blanks;
    }
  }

  // ----- numbers that end before their bytes do -----

  /** "1e+", a number as far as its bytes go. */
  const UNFINISHED: bytes := [0x31, LOWER_E, PLUS]

  lemma SeenUnfinished()
    ensures Seen(UNFINISHED + [NUL]) == UNFINISHED
  {
    var s := UNFINISHED + [NUL];
    assert s[0] as char == '1' && s[1] as char == 'e' && s[2] as char == '+';
    assert NumberCharacter('1') && NumberCharacter('e') && NumberCharacter('+') && !NumberCharacter(s[3] as char);
    assert Seen(s) == s[..|Seen(s)|];
  }

  lemma BlanksFirst(before: bytes, t: bytes)
    requires Blank(before)
    ensures if before == [] then before + t == t else (before + t)[0] <= SPACE
  {
  }

  /** An acceptable tree stands at the start of `s`, and nothing prolongs it. */
  predicate WholeAt(k: Codec, s: bytes, before: bytes, v: Cst, rest: bytes) {
    Blank(before) && Lexical(v) && Accepted(k, v, 0) && (v.Numeral? ==> Follow(rest)) && s == before + Put(v, rest)
  }

  lemma NoWholeValue(k: Codec, before: bytes, v: Cst, rest: bytes)
    requires k.strtod(UNFINISHED).0 == 1
    ensures !WholeAt(k, UNFINISHED + [NUL], before, v, rest)
  {
    hide Put, Lexical, Accepted;
    if WholeAt(k, UNFINISHED + [NUL], before, v, rest) {
      BlanksFirst(before, Put(v, rest));
      if v.Numeral? {
        NoWholeNumeral(k, v, rest);
      } else {
        FirstOfOthers(v, rest);
      }
    }
  }

  lemma NoWholeNumeral(k: Codec, v: Cst, rest: bytes)
    requires k.strtod(UNFINISHED).0 == 1
    requires v.Numeral? && UNFINISHED + [NUL] == Put(v, rest) && Lexical(v) && Follow(rest)
    ensures !Accepted(k, v, 0)
  {
    var s, n := UNFINISHED + [NUL], |v.lexeme|;
    assert s[n] == rest[0] && !NumberByte(rest[0]);
    assert v.lexeme == s[..n];
    assert n == 3 ==> v.lexeme == UNFINISHED;
  }

  lemma FirstOfOthers(v: Cst, rest: bytes)
    requires !v.Numeral?
    ensures |Put(v, rest)| > 0 && !NumberStart(Put(v, rest)[0])
  {
  }

  lemma UnfinishedHeads(k: Codec)
    requires k.strtod(UNFINISHED).0 == 1
    ensures var rest := [LOWER_E, PLUS, NUL];
            Heads(k, Numeral([0x31]), rest, 0) && Put(Numeral([0x31]), rest) == UNFINISHED + [NUL] &&
            HeadValue(k, Numeral([0x31]), rest) == Number(k.strtod(UNFINISHED).1)
  {
    SeenUnfinished();
    assert [0x31] + [LOWER_E, PLUS, NUL] == UNFINISHED + [NUL];
    hide Seen;
  }

  /**
   * What follows a number may well prolong it: strtod takes the 1 of `1e+`, and cJSON_Parse leaves
   * the rest, although no tree that is acceptable as a whole stands there.
   */
  lemma NumberBytesMayFollow(k: Codec)
    requires k.strtod(UNFINISHED).0 == 1
    ensures Parse(k, UNFINISHED + [NUL], false) == Done(Number(k.strtod(UNFINISHED).1), [LOWER_E, PLUS, NUL])
    ensures !exists before, v, rest :: WholeAt(k, UNFINISHED + [NUL], before, v, rest)
  {
    hide Parse, Put, Heads, HeadValue, WholeAt;
    var s := UNFINISHED + [NUL];
    UnfinishedHeads(k);
    assert s == [] + s;
    ParsesSplit(k, s, [], Numeral([0x31]), [LOWER_E, PLUS, NUL]);
    forall before, v, rest ensures !WholeAt(k, s, before, v, rest) {
      NoWholeValue(k, before, v, rest);
    }
  }
}
