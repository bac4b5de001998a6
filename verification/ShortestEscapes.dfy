/** What print_string_ptr writes is as short as JSON allows. */
module ShortestEscapes {
  import opened Bytes
  import opened Values
  import opened Parser
  import opened Renderer
  import opened Rfc8259

  lemma {:induction false} EscapeAppend(a: bytes, b: bytes)
    ensures Escape(a + b) == Escape(a) + Escape(b)
  {
    if |a| == 0 {
      NoPrefix(b);
      NoPrefix(Escape(b));
    } else {
      EscapeAppend(a[1..], b);
      assert (a + b)[1..] == a[1..] + b;
      Nest(EscapeByte(a[0]), Escape(a[1..]), Escape(b));
    }
  }

  /** Bytes that need no escape. */
  lemma {:induction false} EscapeHigh(s: bytes)
    requires forall i :: 0 <= i < |s| ==> s[i] >= 0x80
    ensures |Escape(s)| == |s|
  {
    if |s| > 0 {
      EscapeHigh(s[1..]);
    }
  }

  lemma EscapeOne(b: byte)
    ensures Escape([b]) == EscapeByte(b)
  {
    assert [b][1..] == [];
    NoPrefix(EscapeByte(b));
  }

  /** The UTF-8 form of a code point takes at most six bytes, escaped. */
  lemma EscapeCodePoint(cp: nat)
    requires cp <= 0x10FFFF
    ensures |Escape(Utf8(cp))| <= 6
  {
    if cp < 0x80 {
      EscapeOne(cp);
    } else {
      EscapeHigh(Utf8(cp));
    }
  }

  /** No way of writing the string as JSON is shorter than the one that is printed. */
  lemma {:induction false} EscapeIsShortest(chars: seq<Char>)
    requires WellFormedString(chars) && StringMeaning(chars).Some?
    ensures |Escape(StringMeaning(chars).value)| <= |StringText(chars)|
    decreases |chars|
  {
    hide Escape, EscapeByte, Utf8, CharCode;
    if |chars| == 0 {
      NothingToEscape();
    } else if StartsPair(chars) {
      var cp := Combine(CharCode(chars[0]), CharCode(chars[1]));
      EscapeIsShortest(chars[1..][1..]);
      EscapeCodePoint(cp);
      EscapeAppend(Utf8(cp), StringMeaning(chars[1..][1..]).value);
    } else {
      EscapeIsShortest(chars[1..]);
      var more := StringMeaning(chars[1..]).value;
      match chars[0]
      case Unescaped(b) =>
        EscapeAppend([b], more);
        PlainIsShort(b);
      case Short(letter) =>
        EscapeAppend([ShortMeaning(letter)], more);
        LetterIsShort(letter);
      case Hex(_, _, _, _) =>
        EscapeCodePoint(CharCode(chars[0]));
        EscapeAppend(Utf8(CharCode(chars[0])), more);
    }
  }

  lemma NothingToEscape()
    ensures Escape([]) == []
  {
  }

  lemma PlainIsShort(b: byte)
    requires WellFormedChar(Unescaped(b))
    ensures |Escape([b])| == 1
  {
    EscapeOne(b);
  }

  lemma LetterIsShort(letter: byte)
    requires WellFormedChar(Char.Short(letter))
    ensures |Escape([ShortMeaning(letter)])| <= 2
  {
    EscapeOne(ShortMeaning(letter));
  }

  /** The digits of an escape are lower case: an upper case letter comes from the string. */
  lemma {:induction false} EscapesAreLowerCase(s: bytes, b: byte)
    requires b in Escape(s) && 'A' as int <= b <= 'Z' as int
    ensures b in s
  {
    if s[0] != b {
      EscapesAreLowerCase(s[1..], b);
    }
  }
}
