/** The second half of parse_string as it runs: output sized by one loop and written by another. */
module Unescaping {
  import opened Bytes
  import opened Values
  import opened Parser
  import Rfc8259

  // ----- the size of the output -----

  /**
   * The number of two-character escapes the sizing loop finds in `s`. It takes any character after
   * a backslash as escaped, so it splits a literal differently from the writing loop when the
   * digits of a unicode escape are not digits.
   */
  function EscapePairs(s: bytes): nat {
    if |s| == 0 then 0
    else if s[0] != BACKSLASH then EscapePairs(s[1..])
    else if |s| == 1 then 0
    else 1 + EscapePairs(s[2..])
  }

  // what it counts in a JSON literal: the escapes

  function EscapedChars(chars: seq<Rfc8259.Char>): nat {
    if |chars| == 0 then 0 else (if chars[0].Unescaped? then 0 else 1) + EscapedChars(chars[1..])
  }

  lemma PairsInFront(plain: byte, s: bytes)
    ensures plain != BACKSLASH ==> EscapePairs([plain] + s) == EscapePairs(s)
    ensures EscapePairs([BACKSLASH, plain] + s) == 1 + EscapePairs(s)
  {
    assert ([plain] + s)[1..] == s && ([BACKSLASH, plain] + s)[2..] == s;
  }

  lemma {:induction false} CountsEscapes(chars: seq<Rfc8259.Char>)
    requires Rfc8259.WellFormedString(chars)
    ensures EscapePairs(Rfc8259.StringText(chars)) == EscapedChars(chars)
  {
    hide EscapePairs;
    NoPairs();
    if |chars| > 0 {
      CountsEscapes(chars[1..]);
      var rest := Rfc8259.StringText(chars[1..]);
      match chars[0]
      case Unescaped(b) => PairsInFront(b, rest);
      case Short(letter) => PairsInFront(letter, rest);
      case Hex(d0, d1, d2, d3) =>
        PairsInFront(d3, rest);
        PairsInFront(d2, [d3] + rest);
        PairsInFront(d1, [d2] + ([d3] + rest));
        PairsInFront(d0, [d1] + ([d2] + ([d3] + rest)));
        PairsInFront(LOWER_U, [d0] + ([d1] + ([d2] + ([d3] + rest))));
        assert [BACKSLASH, LOWER_U, d0, d1, d2, d3] + rest ==
          [BACKSLASH, LOWER_U] + ([d0] + ([d1] + ([d2] + ([d3] + rest))));
    }
  }

  lemma NoPairs()
    ensures EscapePairs([]) == 0
  {
  }

  /** Starting one byte later changes the count by at most one, in one direction. */
  lemma {:induction false} OneByteLater(s: bytes)
    requires |s| > 0
    ensures EscapePairs(s[1..]) <= EscapePairs(s) <= EscapePairs(s[1..]) + 1
    decreases |s|
  {
    if s[0] == BACKSLASH && |s| > 1 {
      assert s[1..][1..] == s[2..];
      if s[1] == BACKSLASH && |s| > 2 {
        OneByteLater(s[2..]);
        assert s[1..][2..] == s[2..][1..];
      }
    }
  }

  /** Two bytes hold at most one escape. */
  lemma TwoBytesLater(s: bytes)
    requires |s| >= 2
    ensures EscapePairs(s) <= EscapePairs(s[2..]) + 1
  {
    if s[0] != BACKSLASH {
      OneByteLater(s[1..]);
      assert s[1..][1..] == s[2..];
    }
  }

  lemma {:induction false} PairsLater(s: bytes, n: nat)
    requires 2 * n <= |s|
    ensures EscapePairs(s) <= EscapePairs(s[2 * n..]) + n
    decreases n
  {
    if n > 0 {
      TwoBytesLater(s);
      PairsLater(s[2..], n - 1);
      assert s[2..][2 * (n - 1)..] == s[2 * n..];
    } else {
      assert s[0..] == s;
    }
  }

  /** What is written for a body, given the room left: an output byte for each byte not skipped. */
  ghost predicate Fits(body: bytes, position: nat, written: nat)
    requires position <= |body|
  {
    written + EscapePairs(body) <= position + EscapePairs(body[position..])
  }

  /** The output never outgrows the count of the sizing loop. */
  lemma FitsInSize(body: bytes, position: nat, written: nat)
    requires position <= |body| && Fits(body, position, written)
    ensures written + EscapePairs(body) <= |body|
  {
    PairsAtMost(body[position..]);
  }

  lemma {:induction false} PairsAtMost(s: bytes)
    ensures 2 * EscapePairs(s) <= |s|
    decreases |s|
  {
    if |s| > 0 && s[0] != BACKSLASH {
      PairsAtMost(s[1..]);
    } else if |s| > 1 {
      PairsAtMost(s[2..]);
    }
  }

  /** A byte that is not a backslash. */
  lemma FitsPlain(body: bytes, position: nat, written: nat)
    requires position < |body| && Fits(body, position, written) && body[position] != BACKSLASH
    ensures Fits(body, position + 1, written + 1)
  {
    assert body[position..][1..] == body[position + 1..];
  }

  /** A two-character escape. */
  lemma FitsPair(body: bytes, position: nat, written: nat)
    requires position + 2 <= |body| && Fits(body, position, written) && body[position] == BACKSLASH
    ensures Fits(body, position + 2, written + 1)
  {
    assert body[position..][2..] == body[position + 2..];
  }

  /** A unicode escape of `2 * n` bytes that yields at most `n` bytes, however it is split. */
  lemma FitsUnicode(body: bytes, position: nat, written: nat, n: nat, more: nat)
    requires position + 2 * n <= |body| && Fits(body, position, written) && more <= n
    ensures Fits(body, position + 2 * n, written + more)
  {
    PairsLater(body[position..], n);
    assert body[position..][2 * n..] == body[position + 2 * n..];
  }

  /** A backslash in front of the closing quote, which it takes as its second character. */
  lemma FitsLast(body: bytes, written: nat)
    requires |body| > 0 && Fits(body, |body| - 1, written)
    ensures written + 1 + EscapePairs(body) <= |body|
  {
    PairsAtMost(body[|body| - 1..]);
  }

  /** For every body: the text stored and its terminator fit what the sizing loop asks for. */
  lemma {:induction false} UnescapeFits(body: bytes, position: nat, out: bytes)
    requires position <= |body| && Fits(body, position, |out|)
    ensures Unescape(body[position..], out).Done? ==>
            |Unescape(body[position..], out).value| + EscapePairs(body) <= |body|
    decreases |body| - position
  {
    hide Utf16Literal, Utf8;
    var rest := body[position..];
    if |rest| == 0 {
      FitsInSize(body, position, |out|);
    } else if rest[0] != BACKSLASH {
      FitsPlain(body, position, |out|);
      assert rest[1..] == body[position + 1..];
      UnescapeFits(body, position + 1, out + [rest[0]]);
    } else if |rest| == 1 {
      FitsLast(body, |out|);
    } else if rest[1] == LOWER_U {
      if Utf16Literal(rest).Some? {
        var (cp, used) := Utf16Literal(rest).value;
        Utf8Bytes(cp);
        FitsUnicode(body, position, |out|, used / 2, |Utf8(cp)|);
        assert rest[used..] == body[position + used..];
        UnescapeFits(body, position + used, out + Utf8(cp));
      }
    } else if ShortEscape(rest[1]).Some? {
      FitsPair(body, position, |out|);
      assert rest[2..] == body[position + 2..];
      UnescapeFits(body, position + 2, out + [ShortEscape(rest[1]).value]);
    }
  }

  // ----- parse_hex4 -----

  /** The digits read so far as a number. */
  function HexValue(s: bytes): nat {
    if |s| == 0 then 0
    else HexValue(s[..|s| - 1]) * 16 + (match HexDigit(s[|s| - 1]) case Some(d) => d case None => 0)
  }

  predicate HexDigits(s: bytes) {
    forall i :: 0 <= i < |s| ==> HexDigit(s[i]).Some?
  }

  /** The first `i` digits, all of them digits, and their number. */
  predicate DigitsRead(s: bytes, i: nat, h: nat)
    requires i <= |s|
  {
    HexDigits(s[..i]) && h == HexValue(s[..i])
  }

  lemma NoDigitsRead(s: bytes)
    ensures DigitsRead(s, 0, 0)
  {
  }

  lemma DigitsReadStep(s: bytes, i: nat, h: nat, d: nat)
    requires i < |s| && DigitsRead(s, i, h) && HexDigit(s[i]) == Some(d)
    ensures DigitsRead(s, i + 1, h * 16 + d)
  {
    hide HexDigit;
    assert s[..i + 1][..i] == s[..i];
  }

  lemma HexValueStep(s: bytes, i: nat)
    requires i < |s| && HexDigit(s[i]).Some?
    ensures HexValue(s[..i + 1]) == HexValue(s[..i]) * 16 + HexDigit(s[i]).value
  {
    hide HexDigit;
    assert s[..i + 1][..i] == s[..i];
  }

  lemma FourDigitsRead(s: bytes, h: nat)
    requires |s| == 4 && DigitsRead(s, 4, h)
    ensures Hex4(s) == h
  {
    assert HexDigit(s[0]).Some? && HexDigit(s[1]).Some? && HexDigit(s[2]).Some? && HexDigit(s[3]).Some? by {
      assert s[..4] == s;
    }
    assert HexValue(s[..0]) == 0;
    hide HexDigit, HexValue;
    HexValueStep(s, 0);
    HexValueStep(s, 1);
    HexValueStep(s, 2);
    HexValueStep(s, 3);
  }

  lemma NoDigit(s: bytes, i: nat)
    requires |s| == 4 && i < 4 && HexDigit(s[i]) == None
    ensures Hex4(s) == 0
  {
    hide HexDigit;
  }

  method ParseHex4(input: bytes) returns (h: nat)
    requires |input| == 4
    ensures h == Hex4(input)
  {
    hide Hex4, DigitsRead;
    h := 0;
    ghost var value := 0;
    NoDigitsRead(input);
    var i := 0;
    while i < 4
      invariant i <= 4 && DigitsRead(input, i, value)
      invariant h == if i < 4 then value * 16 else value
    {
      var c := input[i];
      if 0x30 <= c <= 0x39 {
        h := h + c - 0x30;
      } else if 0x41 <= c <= 0x46 {
        h := h + 10 + c - 0x41;
      } else if 0x61 <= c <= 0x66 {
        h := h + 10 + c - 0x61;
      } else {
        NoDigit(input, i);
        return 0;
      }
      DigitsReadStep(input, i, value, HexDigit(c).value);
      value := h;
      if i < 3 {
        h := h * 16;
      }
      i := i + 1;
    }
    FourDigitsRead(input, value);
  }

  // ----- utf16_literal_to_utf8 -----

  /** The number after `n` shifts to the right by six bits. */
  function Shifted(cp: nat, n: nat): nat {
    if n == 0 then cp else Shifted(cp, n - 1) / 0x40
  }

  function Utf8Length(cp: nat): nat {
    if cp < 0x80 then 1 else if cp < 0x800 then 2 else if cp < 0x10000 then 3 else 4
  }

  /** The bytes of the encoding in the order in which the loop writes them. */
  lemma Utf8Bytes(cp: nat)
    requires cp <= 0x10FFFF
    ensures |Utf8(cp)| == Utf8Length(cp)
    ensures forall i :: 0 < i < Utf8Length(cp) ==> Utf8(cp)[i] == 0x80 + Shifted(cp, Utf8Length(cp) - 1 - i) % 0x40
    ensures var n := Utf8Length(cp);
            Utf8(cp)[0] == Shifted(cp, n - 1) +
            (if n == 1 then 0 else if n == 2 then 0xC0 else if n == 3 then 0xE0 else 0xF0)
  {
    assert Shifted(cp, 1) == cp / 0x40;
    assert Shifted(cp, 2) == cp / 0x1000;
    assert Shifted(cp, 3) == cp / 0x40000;
  }

  /** The encoding half of utf16_literal_to_utf8: continuation bytes from the last to the second, then the first. */
  method WriteUtf8(codepoint: nat, output: array<byte>, at: nat) returns (length: nat)
    requires codepoint <= 0x10FFFF && at + |Utf8(codepoint)| <= output.Length
    modifies output
    ensures length == |Utf8(codepoint)|
    ensures output[..at + length] == old(output[..at]) + Utf8(codepoint)
  {
    hide Utf8;
    Utf8Bytes(codepoint);
    var mark: byte := 0;
    if codepoint < 0x80 {
      length := 1;
    } else if codepoint < 0x800 {
      length, mark := 2, 0xC0;
    } else if codepoint < 0x10000 {
      length, mark := 3, 0xE0;
    } else {
      length, mark := 4, 0xF0;
    }
    ghost var encoding := Utf8(codepoint);
    var cp, position := codepoint, length - 1;
    while position > 0
      invariant 0 <= position < length
      invariant cp == Shifted(codepoint, length - 1 - position)
      invariant output[..at] == old(output[..at])
      invariant forall i :: position < i < length ==> output[at + i] == encoding[i]
    {
      output[at + position] := 0x80 + cp % 0x40;
      cp := cp / 0x40;
      position := position - 1;
    }
    output[at] := cp + mark;
    assert forall i :: 0 <= i < length ==> output[..at + length][at + i] == encoding[i];
    assert output[..at + length][..at] == old(output[..at]);
    assert output[..at + length] == output[..at + length][..at] + output[..at + length][at..];
  }

  /** The reading half of utf16_literal_to_utf8: the code point, and the length of the literal or 0. */
  method ReadUtf16Literal(body: bytes, p: nat) returns (codepoint: nat, length: nat)
    requires p < |body|
    ensures match Utf16Literal(body[p..]) case None => length == 0 case Some((cp, n)) => codepoint == cp && length == n
  {
    hide Hex4;
    if |body| - p < 6 {
      return 0, 0;
    }
    assert body[p..][2..6] == body[p + 2..p + 6];
    var first := ParseHex4(body[p + 2..p + 6]);
    if 0xDC00 <= first <= 0xDFFF {
      return 0, 0;
    }
    if 0xD800 <= first <= 0xDBFF {
      if |body| - (p + 6) < 6 {
        return 0, 0;
      }
      if body[p + 6] != BACKSLASH || body[p + 7] != LOWER_U {
        return 0, 0;
      }
      assert body[p..][8..12] == body[p + 8..p + 12];
      var second := ParseHex4(body[p + 8..p + 12]);
      if second < 0xDC00 || second > 0xDFFF {
        return 0, 0;
      }
      return 0x10000 + (first % 0x400 * 0x400 + second % 0x400), 12;
    }
    return first, 6;
  }

  // ----- the loops of parse_string -----

  /** The second loop of parse_string from `p` on, when `at` bytes have been written. */
  ghost predicate Progress(body: bytes, p: nat, output: array<byte>, at: nat)
    reads output
  {
    p <= |body| && at + EscapePairs(body) <= |body| && at < output.Length &&
    Fits(body, p, at) &&
    Unescape(body, []) == Unescape(body[p..], output[..at])
  }

  /** The letter behind a backslash at `p`; the byte behind the body is the closing quote. */
  function Letter(body: bytes, p: nat): byte
    requires p < |body|
  {
    if p + 1 < |body| then body[p + 1] else QUOTE
  }

  /**
   * The writing loop on a literal body: it never needs more than the sizing loop reserved, and
   * yields what Unescape says. On failure `p` is where it stopped.
   */
  method WriteBody(body: bytes, output: array<byte>) returns (ok: bool, p: nat, at: nat)
    requires output.Length + EscapePairs(body) == |body| + 2
    modifies output
    ensures p <= |body| + 1
    ensures ok ==> at < output.Length && Unescape(body, []) == Done(output[..at], [])
    ensures !ok ==> p < |body| && Unescape(body, []) == Stop(|body| - p)
  {
    PairsAtMost(body);
    assert body[0..] == body && output[..0] == [];
    ok, p, at := true, 0, 0;
    while p < |body|
      invariant p <= |body| ==> Progress(body, p, output, at)
      invariant p > |body| ==> p == |body| + 1 && at < output.Length && Unescape(body, []) == Done(output[..at], [])
      decreases |body| + 1 - p
    {
      if body[p] != BACKSLASH {
        p, at := PlainStep(body, p, output, at);
      } else if Letter(body, p) == LOWER_U {
        ok, p, at := UnicodeStep(body, p, output, at);
        if !ok {
          return;
        }
      } else {
        ok, p, at := ShortStep(body, p, output, at);
        if !ok {
          return;
        }
      }
    }
  }

  method PlainStep(body: bytes, p: nat, output: array<byte>, at: nat) returns (p': nat, at': nat)
    requires p < |body| && Progress(body, p, output, at) && output.Length + EscapePairs(body) == |body| + 2
    requires body[p] != BACKSLASH
    modifies output
    ensures p' == p + 1 && Progress(body, p', output, at')
  {
    FitsPlain(body, p, at);
    FitsInSize(body, p + 1, at + 1);
    ghost var before := output[..at];
    output[at] := body[p];
    p', at' := p + 1, at + 1;
    assert output[..at'] == before + [body[p]];
    assert body[p..][1..] == body[p'..];
  }

  /** utf16_literal_to_utf8 on a unicode escape. */
  lemma UnescapeUnicode(body: bytes, out: bytes)
    requires |body| >= 2 && body[0] == BACKSLASH && body[1] == LOWER_U
    ensures Unescape(body, out) ==
            if Utf16Literal(body) == None then Stop(|body|)
            else Unescape(body[Utf16Literal(body).value.1..], out + Utf8(Utf16Literal(body).value.0))
  {
    hide Utf16Literal, Utf8;
  }

  method UnicodeStep(body: bytes, p: nat, output: array<byte>, at: nat) returns (ok: bool, p': nat, at': nat)
    requires p < |body| && Progress(body, p, output, at) && output.Length + EscapePairs(body) == |body| + 2
    requires body[p] == BACKSLASH && Letter(body, p) == LOWER_U
    modifies output
    ensures if ok then p' > p && Progress(body, p', output, at') else p' == p && Unescape(body, []) == Stop(|body| - p)
  {
    hide Utf8, EscapePairs, Utf16Literal, Unescape, Fits;
    ghost var literal := Utf16Literal(body[p..]);
    UnescapeUnicode(body[p..], output[..at]);
    if literal.Some? {
      var (cp, n) := literal.value;
      Utf8Bytes(cp);
      FitsUnicode(body, p, at, n / 2, |Utf8(cp)|);
      FitsInSize(body, p + n, at + |Utf8(cp)|);
      assert body[p..][n..] == body[p + n..];
    }
    var codepoint, used := ReadUtf16Literal(body, p);
    if used == 0 {
      return false, p, at;
    }
    var written := WriteUtf8(codepoint, output, at);
    return true, p + used, at + written;
  }

  method ShortStep(body: bytes, p: nat, output: array<byte>, at: nat) returns (ok: bool, p': nat, at': nat)
    requires p < |body| && Progress(body, p, output, at) && output.Length + EscapePairs(body) == |body| + 2
    requires body[p] == BACKSLASH && Letter(body, p) != LOWER_U
    modifies output
    ensures !ok ==> p' == p && Unescape(body, []) == Stop(|body| - p)
    ensures ok ==> p' == p + 2 && at' < output.Length
    ensures ok && p' <= |body| ==> Progress(body, p', output, at')
    ensures ok && p' > |body| ==> Unescape(body, []) == Done(output[..at'], [])
  {
    var letter := Letter(body, p);
    var b: byte;
    if letter == LOWER_B {
      b := BACKSPACE;
    } else if letter == LOWER_F {
      b := FORM_FEED;
    } else if letter == LOWER_N {
      b := NEWLINE;
    } else if letter == LOWER_R {
      b := RETURN;
    } else if letter == LOWER_T {
      b := TAB;
    } else if letter == QUOTE || letter == BACKSLASH || letter == SLASH {
      b := letter;
    } else {
      return false, p, at;
    }
    if p + 1 < |body| {
      FitsPair(body, p, at);
      FitsInSize(body, p + 2, at + 1);
      assert body[p..][2..] == body[p + 2..];
    } else {
      FitsLast(body, at);
    }
    ghost var before := output[..at];
    output[at] := b;
    ok, p', at' := true, p + 2, at + 1;
    assert output[..at'] == before + [b];
  }
}
