/**
 * Unicode escapes: UTF-16 as section 2.2 of RFC 2781 decodes it, UTF-8 as section 3 of RFC 3629
 * defines it, and what parse_string makes of one in terms of the other.
 */
module Unicode {
  import opened Bytes
  import opened Values
  import opened Parser
  import opened Syntax
  import opened Language
  import opened Rfc8259
  import Renderer
  import RoundTrip

  // ----- UTF-8 -----

  predicate Scalar(cp: nat) {
    cp <= 0x10FFFF && !(0xD800 <= cp <= 0xDFFF)
  }

  predicate Scalars(cps: seq<nat>) {
    |cps| == 0 || (Scalar(cps[0]) && Scalars(cps[1..]))
  }

  function EncodeAll(cps: seq<nat>): bytes
    requires Scalars(cps)
  {
    if |cps| == 0 then [] else Utf8(cps[0]) + EncodeAll(cps[1..])
  }

  predicate Continuation(b: byte) { 0x80 <= b <= 0xBF }

  /** The bits so far and those of one more byte. */
  function Join(high: nat, b: byte): (cp: nat)
    requires Continuation(b)
    ensures cp / 0x40 == high && 0x80 + cp % 0x40 == b
  {
    var low: nat := b - 0x80;
    high * 0x40 + low
  }

  lemma JoinSplit(cp: nat)
    ensures Join(cp / 0x40, 0x80 + cp % 0x40) == cp
    ensures cp / 0x1000 == cp / 0x40 / 0x40 && cp / 0x40000 == cp / 0x1000 / 0x40
  {
  }

  /** The first code point of well-formed UTF-8 and its length: no overlong form, no surrogate. */
  function DecodeFirst(s: bytes): (r: Option<(nat, nat)>)
    ensures r.Some? ==> 1 <= r.value.1 <= |s|
  {
    if |s| == 0 then None
    else if s[0] < 0x80 then Some((s[0], 1))
    else if 0xC0 <= s[0] < 0xE0 && |s| >= 2 && Continuation(s[1]) then
      Shortest(Join(s[0] - 0xC0, s[1]), 0x80, 2)
    else if 0xE0 <= s[0] < 0xF0 && |s| >= 3 && Continuation(s[1]) && Continuation(s[2]) then
      Shortest(Join(Join(s[0] - 0xE0, s[1]), s[2]), 0x800, 3)
    else if 0xF0 <= s[0] < 0xF8 && |s| >= 4 && Continuation(s[1]) && Continuation(s[2]) && Continuation(s[3]) then
      Shortest(Join(Join(Join(s[0] - 0xF0, s[1]), s[2]), s[3]), 0x10000, 4)
    else None
  }

  function Shortest(cp: nat, least: nat, length: nat): Option<(nat, nat)> {
    if cp >= least && Scalar(cp) then Some((cp, length)) else None
  }

  function DecodeAll(s: bytes): Option<seq<nat>>
    decreases |s|
  {
    if |s| == 0 then Some([])
    else
      match DecodeFirst(s)
      case None => None
      case Some((cp, n)) => Cons(cp, DecodeAll(s[n..]))
  }

  function Cons(cp: nat, r: Option<seq<nat>>): Option<seq<nat>> {
    match r case None => None case Some(cps) => Some([cp] + cps)
  }

  lemma DecodesFirst(cp: nat, rest: bytes)
    requires Scalar(cp)
    ensures DecodeFirst(Utf8(cp) + rest) == Some((cp, |Utf8(cp)|))
  {
    var e, s := Utf8(cp), Utf8(cp) + rest;
    assert forall i :: 0 <= i < |e| ==> s[i] == e[i];
    hide Join;
    JoinSplit(cp);
    JoinSplit(cp / 0x40);
    JoinSplit(cp / 0x1000);
    if cp >= 0x10000 {
      assert s[0] == e[0] && s[1] == e[1] && s[2] == e[2] && s[3] == e[3];
    } else if cp >= 0x800 {
      assert s[0] == e[0] && s[1] == e[1] && s[2] == e[2];
    } else if cp >= 0x80 {
      assert s[0] == e[0] && s[1] == e[1];
    }
  }

  lemma EncodesFirst(s: bytes)
    requires DecodeFirst(s).Some?
    ensures var (cp, n) := DecodeFirst(s).value;
            Scalar(cp) && Utf8(cp) == s[..n]
  {
    hide Join;
    var (cp, n) := DecodeFirst(s).value;
    JoinSplit(cp);
    JoinSplit(cp / 0x40);
    JoinSplit(cp / 0x1000);
  }

  /** Decoding undoes encoding, and only what encoding yields can be decoded. */
  lemma {:induction false} Utf8Inverse(cps: seq<nat>)
    requires Scalars(cps)
    ensures DecodeAll(EncodeAll(cps)) == Some(cps)
  {
    if |cps| > 0 {
      var rest := EncodeAll(cps[1..]);
      hide DecodeFirst, Utf8;
      DecodesFirst(cps[0], rest);
      Utf8Inverse(cps[1..]);
      assert [cps[0]] + cps[1..] == cps;
      assert (Utf8(cps[0]) + rest)[|Utf8(cps[0])|..] == rest;
    }
  }

  lemma {:induction false} Utf8Shortest(s: bytes)
    requires DecodeAll(s).Some?
    ensures Scalars(DecodeAll(s).value) && EncodeAll(DecodeAll(s).value) == s
    decreases |s|
  {
    hide DecodeFirst, Utf8, Scalar;
    if |s| > 0 {
      var (cp, n) := DecodeFirst(s).value;
      EncodesFirst(s);
      Utf8Shortest(s[n..]);
      assert ([cp] + DecodeAll(s[n..]).value)[1..] == DecodeAll(s[n..]).value;
      assert s == s[..n] + s[n..];
    }
  }

  lemma {:induction false} EncodedNul(cps: seq<nat>)
    requires Scalars(cps)
    ensures NulFree(EncodeAll(cps)) <==> 0 !in cps
  {
    if |cps| > 0 {
      EncodedNul(cps[1..]);
      var first, rest := Utf8(cps[0]), EncodeAll(cps[1..]);
      assert NulFree(first) <==> cps[0] != 0 by {
        assert cps[0] == 0 ==> first[0] == NUL;
      }
      assert NulFree(first + rest) <==> NulFree(first) && NulFree(rest) by {
        assert forall i :: 0 <= i < |first| ==> (first + rest)[i] == first[i];
        assert forall i :: 0 <= i < |rest| ==> (first + rest)[|first| + i] == rest[i];
      }
      assert cps == [cps[0]] + cps[1..];
    }
  }

  // ----- UTF-16 -----

  /** Section 2.2 of RFC 2781. */
  function DecodeUtf16(units: seq<nat>): (r: Option<seq<nat>>)
    decreases |units|
  {
    if |units| == 0 then Some([])
    else if HighSurrogate(units[0]) then
      if |units| >= 2 && LowSurrogate(units[1]) then Cons(Combine(units[0], units[1]), DecodeUtf16(units[2..]))
      else None
    else if LowSurrogate(units[0]) then None
    else Cons(units[0], DecodeUtf16(units[1..]))
  }

  /** A string that consists of unicode escapes. */
  predicate Escapes(chars: seq<Char>) {
    |chars| == 0 || (chars[0].Hex? && Escapes(chars[1..]))
  }

  function Units(chars: seq<Char>): (r: seq<nat>)
    requires Escapes(chars)
    ensures |r| == |chars|
  {
    if |chars| == 0 then [] else [CharCode(chars[0])] + Units(chars[1..])
  }

  lemma UnitsTwo(chars: seq<Char>)
    requires Escapes(chars) && |chars| >= 2
    ensures Escapes(chars[1..]) && Escapes(chars[1..][1..]) && chars[1].Hex?
    ensures Units(chars)[0] == CharCode(chars[0]) && Units(chars)[1] == CharCode(chars[1])
    ensures Units(chars)[2..] == Units(chars[1..][1..])
  {
    assert Units(chars)[1..] == Units(chars[1..]);
    assert Units(chars[1..])[1..] == Units(chars[1..][1..]);
    assert Units(chars)[2..] == Units(chars)[1..][1..];
  }

  /** The string denoted by escapes is the UTF-8 form of what their code units decode to. */
  lemma {:induction false} EscapesMeaning(chars: seq<Char>)
    requires Escapes(chars)
    ensures var r := DecodeUtf16(Units(chars));
            if r.Some? then Scalars(r.value) && StringMeaning(chars) == Some(EncodeAll(r.value))
            else StringMeaning(chars) == None
    decreases |chars|
  {
    if |chars| > 0 {
      var units := Units(chars);
      assert units[0] == CharCode(chars[0]) && units[1..] == Units(chars[1..]);
      if |chars| >= 2 {
        UnitsTwo(chars);
      }
      if StartsPair(chars) {
        EscapesMeaning(chars[1..][1..]);
        ConsMeaning(Combine(units[0], units[1]), DecodeUtf16(units[2..]));
      } else {
        EscapesMeaning(chars[1..]);
        if Scalar(units[0]) {
          ConsMeaning(units[0], DecodeUtf16(units[1..]));
        }
      }
    }
  }

  lemma ConsMeaning(cp: nat, r: Option<seq<nat>>)
    requires Scalar(cp) && (r.Some? ==> Scalars(r.value))
    ensures r.Some? ==>
            Cons(cp, r).Some? && Scalars(Cons(cp, r).value) &&
            EncodeAll(Cons(cp, r).value) == Utf8(cp) + EncodeAll(r.value)
  {
    if r.Some? {
      assert ([cp] + r.value)[1..] == r.value;
    }
  }

  // ----- every code point can be written -----

  lemma Nibble(n: nat)
    ensures n == n / 0x10 * 0x10 + n % 0x10 && n % 0x10 < 0x10
  {
  }

  function HexOf(d3: nat, d2: nat, d1: nat, d0: nat): (c: Char)
    requires d3 < 16 && d2 < 16 && d1 < 16 && d0 < 16
    ensures c.Hex? && WellFormedChar(c) && CharCode(c) == d3 * 0x1000 + d2 * 0x100 + d1 * 0x10 + d0
  {
    RoundTrip.HexCharDigit(d3);
    RoundTrip.HexCharDigit(d2);
    RoundTrip.HexCharDigit(d1);
    RoundTrip.HexCharDigit(d0);
    Char.Hex(Renderer.HexChar(d3), Renderer.HexChar(d2), Renderer.HexChar(d1), Renderer.HexChar(d0))
  }

  /** One code unit as an escape. */
  function Quad(u: nat): (c: Char)
    requires u < 0x10000
    ensures c.Hex? && WellFormedChar(c) && CharCode(c) == u
  {
    Nibble(u);
    Nibble(u / 0x10);
    Nibble(u / 0x10 / 0x10);
    HexOf(u / 0x10 / 0x10 / 0x10, u / 0x10 / 0x10 % 0x10, u / 0x10 % 0x10, u % 0x10)
  }

  function High(cp: nat): (u: nat)
    requires 0x10000 <= cp <= 0x10FFFF
    ensures HighSurrogate(u)
  {
    0xD800 + (cp - 0x10000) / 0x400
  }

  function Low(cp: nat): (u: nat)
    requires 0x10000 <= cp <= 0x10FFFF
    ensures LowSurrogate(u) && Combine(High(cp), u) == cp
  {
    0xDC00 + (cp - 0x10000) % 0x400
  }

  /** Code points as escapes, those beyond U+FFFF as surrogate pairs. */
  function Spell(cps: seq<nat>): (chars: seq<Char>)
    requires Scalars(cps)
  {
    if |cps| == 0 then []
    else if cps[0] < 0x10000 then [Quad(cps[0])] + Spell(cps[1..])
    else [Quad(High(cps[0])), Quad(Low(cps[0]))] + Spell(cps[1..])
  }

  lemma UnitsCons(c: Char, rest: seq<Char>)
    requires c.Hex? && WellFormedChar(c) && WellFormedString(rest) && Escapes(rest)
    ensures var chars := [c] + rest;
            WellFormedString(chars) && Escapes(chars) && Units(chars) == [CharCode(c)] + Units(rest)
  {
    assert ([c] + rest)[1..] == rest;
  }

  lemma DecodePair(h: nat, l: nat, units: seq<nat>)
    requires HighSurrogate(h) && LowSurrogate(l)
    ensures DecodeUtf16([h] + ([l] + units)) == Cons(Combine(h, l), DecodeUtf16(units))
  {
    var all := [h] + ([l] + units);
    assert all[0] == h && all[1] == l && all[2..] == units;
  }

  lemma DecodeSingle(u: nat, units: seq<nat>)
    requires !HighSurrogate(u) && !LowSurrogate(u)
    ensures DecodeUtf16([u] + units) == Cons(u, DecodeUtf16(units))
  {
    assert ([u] + units)[1..] == units;
  }

  lemma {:induction false} SpellDecodes(cps: seq<nat>)
    requires Scalars(cps)
    ensures WellFormedString(Spell(cps)) && Escapes(Spell(cps)) && DecodeUtf16(Units(Spell(cps))) == Some(cps)
  {
    hide DecodeUtf16, Units, Escapes, WellFormedString, WellFormedChar, CharCode, Combine, HighSurrogate, LowSurrogate;
    if |cps| == 0 {
      NothingSpelled();
    } else {
      SpellDecodes(cps[1..]);
      var rest := Spell(cps[1..]);
      assert cps == [cps[0]] + cps[1..];
      if cps[0] < 0x10000 {
        UnitsCons(Quad(cps[0]), rest);
        ScalarUnit(cps[0]);
        DecodeSingle(cps[0], Units(rest));
      } else {
        var h, l := Quad(High(cps[0])), Quad(Low(cps[0]));
        assert [h, l] + rest == [h] + ([l] + rest);
        UnitsCons(l, rest);
        UnitsCons(h, [l] + rest);
        DecodePair(High(cps[0]), Low(cps[0]), Units(rest));
      }
    }
  }

  lemma NothingSpelled()
    ensures WellFormedString([]) && Escapes([]) && DecodeUtf16(Units([])) == Some([])
  {
  }

  lemma ScalarUnit(cp: nat)
    requires Scalar(cp)
    ensures !HighSurrogate(cp) && !LowSurrogate(cp)
  {
  }

  // ----- main result -----

  /**
   * For any unicode escapes, in either case of digits: parse_string accepts the literal exactly
   * when its surrogates are paired, and yields the UTF-8 form of the code points, which decodes
   * to them again.
   */
  lemma EscapesToUtf8(chars: seq<Char>, rest: bytes)
    requires Escapes(chars) && WellFormedString(chars) && Terminated(rest)
    ensures var s := PutLiteral(StringText(chars), rest);
            var cps := DecodeUtf16(Units(chars));
            Terminated(s) &&
            if cps == None then ParseString(s).Stop?
            else
              Scalars(cps.value) && ParseString(s) == Done(EncodeAll(cps.value), rest) &&
              DecodeAll(EncodeAll(cps.value)) == cps && (NulFree(EncodeAll(cps.value)) <==> 0 !in cps.value)
  {
    StringAgrees(chars);
    EscapesMeaning(chars);
    StringDecodes(chars, []);
    ParsesLiteral(StringText(chars), rest);
    var cps := DecodeUtf16(Units(chars));
    if cps.Some? {
      Utf8Inverse(cps.value);
      EncodedNul(cps.value);
      assert [] + EncodeAll(cps.value) == EncodeAll(cps.value);
    }
  }

  /** Every sequence of code points can be written that way and is read back. */
  lemma EveryScalarReadsBack(cps: seq<nat>, rest: bytes)
    requires Scalars(cps) && Terminated(rest)
    ensures var s := PutLiteral(StringText(Spell(cps)), rest);
            Terminated(s) && ParseString(s) == Done(EncodeAll(cps), rest) && DecodeAll(EncodeAll(cps)) == Some(cps)
  {
    SpellDecodes(cps);
    EscapesToUtf8(Spell(cps), rest);
  }
}
